/** The function under construction: basic blocks with phi nodes, the units still to translate,
    and the invariant that every step of the worklist keeps. */
module Cfg {
  import opened Words
  import opened Ir
  import opened Arm
  import opened Emitters

  datatype Incoming = Incoming(value: Operand, pred: Label)

  datatype Term = Br(target: Pc) | CondBr(cond: Operand, yes: Pc, no: Pc) | Ret

  datatype Block = Block(phis: map<Id, seq<Incoming>>, code: seq<Line>, terms: seq<Term>)

  type Blocks = map<Label, Block>

  // Address ranges.

  type Range = (Pc, Pc)

  predicate Within(r: Range, pc: Pc) {
    r.0 <= pc < r.1
  }

  predicate InRange(ranges: seq<Range>, pc: Pc) {
    exists i :: 0 <= i < |ranges| && Within(ranges[i], pc)
  }

  /** The addresses of the ranges, as a finite set. */
  function Addresses(ranges: seq<Range>): (s: set<Pc>)
    ensures forall pc: Pc :: pc in s <==> InRange(ranges, pc)
  {
    if ranges == [] then {}
    else
      var r := ranges[0];
      var s := (set pc: Pc | r.0 <= pc < r.1 && Within(r, pc)) + Addresses(ranges[1..]);
      assert forall i :: 0 < i < |ranges| ==> ranges[i] == ranges[1..][i - 1];
      s
  }

  // Running the function. Entering a block along an edge sets all its phi nodes at once.

  datatype Conf = Running(at: Label, env: Env, heap: Heap) | Returned(heap: Heap) | Stuck

  function ValueFrom(incoming: seq<Incoming>, pred: Label): Operand {
    if incoming == [] then Lit(Void)
    else if incoming[0].pred == pred then incoming[0].value
    else ValueFrom(incoming[1..], pred)
  }

  predicate HasPred(incoming: seq<Incoming>, pred: Label) {
    exists k :: 0 <= k < |incoming| && incoming[k].pred == pred
  }

  function PhiData(l: Label, b: Block, pred: Label, env: Env): Env {
    map id | id in b.phis.Keys :: Phi(l, id) := Eval(ValueFrom(b.phis[id], pred), env)
  }

  /** Stuck if the block does not exist or a phi node has no value for the edge. */
  function Enter(blocks: Blocks, from: Label, to: Pc, s: State): Conf {
    var l := Head(to);
    if l in blocks && forall id | id in blocks[l].phis.Keys :: HasPred(blocks[l].phis[id], from) then
      Running(l, s.env + PhiData(l, blocks[l], from, s.env), s.heap)
    else Stuck
  }

  /** Runs one block. Stuck if it does not have exactly one terminator. */
  function RunBlock(blocks: Blocks, c: Conf): Conf {
    if !c.Running? then c
    else if c.at !in blocks || |blocks[c.at].terms| != 1 then Stuck
    else
      var s := Exec(blocks[c.at].code, State(c.env, c.heap));
      match blocks[c.at].terms[0]
      case Br(target) => Enter(blocks, c.at, target, s)
      case CondBr(cond, yes, no) => Enter(blocks, c.at, if Truth(cond, s.env) then yes else no, s)
      case Ret => Returned(s.heap)
  }

  function RunBlocks(blocks: Blocks, c: Conf, n: nat): Conf {
    if n == 0 then c else RunBlock(blocks, RunBlocks(blocks, c, n - 1))
  }

  // The state of the worklist.

  /** An unfinished unit with its current value ids. */
  datatype Work = Work(pc: Pc, values: Values)

  /** `outs` and `edges` record, for every block whose translation has begun, its final value
      ids and the targets handed to find_create for it so far. */
  datatype Graph = Graph(blocks: Blocks, queue: seq<Work>, outs: map<Label, Values>, edges: map<Label, seq<Pc>>)

  function NewBlock(): Block {
    Block(map id | id in VALUE_INFORMATION :: [], [], [])
  }

  function CreateUnit(g: Graph, pc: Pc): Graph {
    g.(blocks := g.blocks[Head(pc) := NewBlock()], queue := g.queue + [Work(pc, PhiValues(Head(pc)))])
  }

  function AddIncoming(b: Block, values: Values, pred: Label): Block {
    b.(phis := map id | id in b.phis :: b.phis[id] + if id in values then [Incoming(values[id], pred)] else [])
  }

  /** One more edge from `pred` to the unit at `to`, with the final value ids of `pred`. */
  function AddEdge(g: Graph, to: Pc, pred: Label): Graph
    requires pred in g.outs && pred in g.edges && Head(to) in g.blocks
  {
    g.(blocks := g.blocks[Head(to) := AddIncoming(g.blocks[Head(to)], g.outs[pred], pred)],
       edges := g.edges[pred := g.edges[pred] + [to]])
  }

  function FindCreate(g: Graph, to: Pc, pred: Label): Graph
    requires pred in g.outs && pred in g.edges
  {
    AddEdge(if Head(to) in g.blocks then g else CreateUnit(g, to), to, pred)
  }

  function Targets(t: Term): seq<Pc> {
    match t
    case Br(target) => [target]
    case CondBr(_, yes, no) => [no, yes]
    case Ret => []
  }

  function LeaveOf(t: Term): Leave
    requires !t.Ret?
  {
    match t
    case Br(target) => Goto(target)
    case CondBr(cond, yes, no) => Choose(cond, yes, no)
  }

  /** How often `pred` occurs among the incoming edges of a phi node. */
  function PredCount(incoming: seq<Incoming>, pred: Label): nat {
    if incoming == [] then 0
    else PredCount(incoming[..|incoming| - 1], pred) + if incoming[|incoming| - 1].pred == pred then 1 else 0
  }

  /** How often `pc` occurs among the targets of a block. */
  function TargetCount(targets: seq<Pc>, pc: Pc): nat {
    multiset(targets)[pc]
  }

  // What a finished block is.

  ghost predicate EntryBlock(entry: Pc, b: Block, out: Values) {
    Scoped(b.code, Entry) && LocalValues(out, Entry, |b.code|) && b.terms == [Br(entry)]
    && EntryShows(entry, b.code, out)
  }

  ghost predicate ExitBlock(pc: Pc, b: Block) {
    Scoped(b.code, Head(pc)) && b.terms == [Ret] && ExitStores(b.code, PhiValues(Head(pc)))
  }

  ghost predicate UnitBlock(prog: Program, pc: Pc, ins: Insn, size: nat, b: Block, out: Values) {
    && Scoped(b.code, Head(pc)) && LocalValues(out, Head(pc), |b.code|)
    && |b.terms| == 1 && !b.terms[0].Ret? && LeaveInScope(LeaveOf(b.terms[0]), Head(pc), |b.code|)
    && Implements(prog, pc, ins, size, b.code, out, LeaveOf(b.terms[0]))
  }

  /** A potentially invalid encoding is dropped: its block stays empty. */
  ghost predicate DroppedBlock(b: Block) {
    b.code == [] && b.terms == []
  }

  ghost predicate Finished(prog: Program, ranges: seq<Range>, entry: Pc, l: Label, b: Block, out: Values) {
    match l
    case Entry => EntryBlock(entry, b, out)
    case Head(pc) =>
      if !InRange(ranges, pc) then ExitBlock(pc, b)
      else match prog.decode(pc)
        case Success(ins, size) => UnitBlock(prog, pc, ins, size, b, out)
        case SoftFail => DroppedBlock(b)
        case _ => false
  }

  /** Every incoming value is the one its predecessor ends with, and the predecessors occur
      exactly as often as they have edges to this unit. */
  ghost predicate PhiMatchesEdges(g: Graph, pc: Pc, incoming: seq<Incoming>, id: Id) {
    && (forall k :: 0 <= k < |incoming| ==>
          incoming[k].pred in g.outs && id in g.outs[incoming[k].pred]
          && incoming[k].value == g.outs[incoming[k].pred][id])
    && (forall l :: l in g.edges ==> PredCount(incoming, l) == TargetCount(g.edges[l], pc))
  }

  ghost predicate Queued(g: Graph, w: Work) {
    Head(w.pc) in g.blocks && Head(w.pc) !in g.outs && w.values == PhiValues(Head(w.pc))
    && g.blocks[Head(w.pc)].code == [] && g.blocks[Head(w.pc)].terms == []
  }

  ghost predicate PhisComplete(blocks: Blocks) {
    forall pc: Pc, id: Id :: Head(pc) in blocks ==> id in blocks[Head(pc)].phis
  }

  ghost predicate PhisMatchEdges(g: Graph) {
    forall pc: Pc, id: Id :: Head(pc) in g.blocks ==>
      id in g.blocks[Head(pc)].phis && PhiMatchesEdges(g, pc, g.blocks[Head(pc)].phis[id], id)
  }

  /** Each unit is queued at most once, and it is queued unless its translation has begun. */
  ghost predicate QueueCorrect(g: Graph) {
    && (forall i :: 0 <= i < |g.queue| ==> Queued(g, g.queue[i]))
    && (forall i, j :: 0 <= i < j < |g.queue| ==> g.queue[i].pc != g.queue[j].pc)
    && (forall l :: l in g.blocks ==> l in g.outs || (l.Head? && InQueue(g.queue, l.pc)))
  }

  predicate InQueue(queue: seq<Work>, pc: Pc) {
    exists i :: 0 <= i < |queue| && queue[i].pc == pc
  }

  ghost predicate EdgesLeadToUnits(g: Graph) {
    forall l, k :: l in g.edges && 0 <= k < |g.edges[l]| ==> Head(g.edges[l][k]) in g.blocks
  }

  ghost predicate BlockClosed(prog: Program, ranges: seq<Range>, entry: Pc, g: Graph, l: Label)
    requires l in g.blocks && l in g.outs && l in g.edges
  {
    var b := g.blocks[l];
    Finished(prog, ranges, entry, l, b, g.outs[l])
    && g.edges[l] == if b.terms == [] then [] else Targets(b.terms[0])
  }

  /** The invariant while the blocks in `open` are being translated. */
  ghost predicate Inv(prog: Program, ranges: seq<Range>, entry: Pc, g: Graph, open: set<Label>) {
    && g.outs.Keys == g.edges.Keys <= g.blocks.Keys && {Entry} + open <= g.outs.Keys
    && PhisMatchEdges(g)
    && QueueCorrect(g)
    && EdgesLeadToUnits(g)
    && (forall l :: l in g.outs && l !in open ==> BlockClosed(prog, ranges, entry, g, l))
  }

  /** The state in which the worklist has run empty. */
  ghost predicate Closed(prog: Program, ranges: seq<Range>, entry: Pc, g: Graph) {
    Inv(prog, ranges, entry, g, {}) && g.queue == []
  }

  // Creating a unit.

  lemma NoTarget(g: Graph, l: Label, pc: Pc)
    requires EdgesLeadToUnits(g) && l in g.edges && Head(pc) !in g.blocks
    ensures TargetCount(g.edges[l], pc) == 0
  {
    assert pc !in g.edges[l];
  }

  lemma CreateUnitPhis(g: Graph, pc: Pc)
    requires PhisMatchEdges(g) && EdgesLeadToUnits(g) && Head(pc) !in g.blocks
    ensures PhisMatchEdges(CreateUnit(g, pc))
  {
    var g' := CreateUnit(g, pc);
    forall p: Pc, id: Id | Head(p) in g'.blocks
      ensures id in g'.blocks[Head(p)].phis && PhiMatchesEdges(g', p, g'.blocks[Head(p)].phis[id], id)
    {
      AllIds(id);
      if p == pc {
        forall l | l in g.edges
          ensures TargetCount(g.edges[l], pc) == 0
        {
          NoTarget(g, l, pc);
        }
      } else {
        assert PhiMatchesEdges(g, p, g.blocks[Head(p)].phis[id], id);
      }
    }
  }

  lemma CreateUnitQueue(g: Graph, pc: Pc)
    requires QueueCorrect(g) && g.outs.Keys <= g.blocks.Keys && Head(pc) !in g.blocks
    ensures QueueCorrect(CreateUnit(g, pc))
  {
    var g' := CreateUnit(g, pc);
    assert forall i :: 0 <= i < |g.queue| ==> g'.queue[i] == g.queue[i] && Queued(g, g.queue[i]);
    assert g'.queue[|g.queue|] == Work(pc, PhiValues(Head(pc)));
  }

  lemma CreateUnitKeeps(prog: Program, ranges: seq<Range>, entry: Pc, g: Graph, pc: Pc, open: set<Label>)
    requires Inv(prog, ranges, entry, g, open) && Head(pc) !in g.blocks
    ensures Inv(prog, ranges, entry, CreateUnit(g, pc), open)
  {
    hide Finished, QueueCorrect, PhisMatchEdges;
    CreateUnitPhis(g, pc);
    CreateUnitQueue(g, pc);
    assert forall l :: l in g.outs && l !in open ==> BlockClosed(prog, ranges, entry, g, l);
  }

  // Adding an edge.

  lemma AddEdgePhis(g: Graph, to: Pc, pred: Label)
    requires PhisMatchEdges(g) && Head(to) in g.blocks && g.outs.Keys == g.edges.Keys && pred in g.outs
    requires forall id: Id :: id in g.outs[pred]
    ensures PhisMatchEdges(AddEdge(g, to, pred))
  {
    var g' := AddEdge(g, to, pred);
    forall p: Pc, id: Id | Head(p) in g'.blocks
      ensures id in g'.blocks[Head(p)].phis && PhiMatchesEdges(g', p, g'.blocks[Head(p)].phis[id], id)
    {
      var before := g.blocks[Head(p)].phis[id];
      assert PhiMatchesEdges(g, p, before, id);
      if p == to {
        AppendIncoming(g, to, pred, before, id);
      } else {
        forall l | l in g'.edges
          ensures TargetCount(g'.edges[l], p) == TargetCount(g.edges[l], p)
        {
          AppendTarget(g.edges[l], to, p);
        }
      }
    }
  }

  lemma AppendTarget(targets: seq<Pc>, to: Pc, pc: Pc)
    ensures TargetCount(targets + [to], pc) == TargetCount(targets, pc) + if to == pc then 1 else 0
  {
  }

  lemma AppendIncoming(g: Graph, to: Pc, pred: Label, incoming: seq<Incoming>, id: Id)
    requires PhiMatchesEdges(g, to, incoming, id) && Head(to) in g.blocks
    requires g.outs.Keys == g.edges.Keys && pred in g.outs && id in g.outs[pred]
    ensures PhiMatchesEdges(AddEdge(g, to, pred), to, incoming + [Incoming(g.outs[pred][id], pred)], id)
  {
    var g' := AddEdge(g, to, pred);
    var entry := Incoming(g.outs[pred][id], pred);
    assert (incoming + [entry])[..|incoming|] == incoming;
    forall l | l in g'.edges
      ensures PredCount(incoming + [entry], l) == TargetCount(g'.edges[l], to)
    {
      AppendTarget(g.edges[l], to, to);
    }
  }

  lemma AddEdgeQueue(g: Graph, to: Pc, pred: Label)
    requires QueueCorrect(g) && Head(to) in g.blocks && pred in g.outs && pred in g.edges
    ensures QueueCorrect(AddEdge(g, to, pred))
  {
    assert forall i :: 0 <= i < |g.queue| ==> Queued(g, g.queue[i]);
  }

  lemma AddEdgeKeeps(prog: Program, ranges: seq<Range>, entry: Pc, g: Graph, to: Pc, pred: Label)
    requires Inv(prog, ranges, entry, g, {pred}) && Head(to) in g.blocks
    requires forall id: Id :: id in g.outs[pred]
    ensures Inv(prog, ranges, entry, AddEdge(g, to, pred), {pred})
  {
    hide QueueCorrect, PhisMatchEdges, EntryBlock, UnitBlock, ExitBlock, EdgesLeadToUnits;
    var g' := AddEdge(g, to, pred);
    AddEdgePhis(g, to, pred);
    AddEdgeQueue(g, to, pred);
    AddEdgeLeads(g, to, pred);
    forall l | l in g'.outs && l != pred
      ensures BlockClosed(prog, ranges, entry, g', l)
    {
      assert BlockClosed(prog, ranges, entry, g, l);
      SameCode(prog, ranges, entry, l, g.blocks[l], g'.blocks[l], g.outs[l]);
    }
  }

  lemma AddEdgeLeads(g: Graph, to: Pc, pred: Label)
    requires EdgesLeadToUnits(g) && Head(to) in g.blocks && pred in g.outs && pred in g.edges
    ensures EdgesLeadToUnits(AddEdge(g, to, pred))
  {
  }

  /** The phi nodes of a block play no part in whether it is finished. */
  lemma SameCode(prog: Program, ranges: seq<Range>, entry: Pc, l: Label, b: Block, b': Block, out: Values)
    requires Finished(prog, ranges, entry, l, b, out) && b'.code == b.code && b'.terms == b.terms
    ensures Finished(prog, ranges, entry, l, b', out)
  {
    hide Implements, ExitStores, EntryShows;
  }

  lemma FindCreateKeeps(prog: Program, ranges: seq<Range>, entry: Pc, g: Graph, to: Pc, pred: Label)
    requires Inv(prog, ranges, entry, g, {pred})
    requires forall id: Id :: id in g.outs[pred]
    ensures Inv(prog, ranges, entry, FindCreate(g, to, pred), {pred})
  {
    hide Finished, PhisMatchEdges, QueueCorrect, EdgesLeadToUnits;
    if Head(to) in g.blocks {
      AddEdgeKeeps(prog, ranges, entry, g, to, pred);
    } else {
      CreateUnitKeeps(prog, ranges, entry, g, to, {pred});
      AddEdgeKeeps(prog, ranges, entry, CreateUnit(g, to), to, pred);
    }
  }

  // Beginning and closing a block.

  /** The next unfinished unit leaves the queue; its final value ids are `out`. */
  function Begin(g: Graph, out: Values): Graph
    requires g.queue != []
  {
    var l := Head(g.queue[0].pc);
    g.(queue := g.queue[1..], outs := g.outs[l := out], edges := g.edges[l := []])
  }

  function SetBlock(g: Graph, l: Label, code: seq<Line>, terms: seq<Term>): Graph
    requires l in g.blocks
  {
    g.(blocks := g.blocks[l := g.blocks[l].(code := code, terms := terms)])
  }

  lemma {:induction false} NoPred(g: Graph, incoming: seq<Incoming>, l: Label)
    requires forall k :: 0 <= k < |incoming| ==> incoming[k].pred in g.outs
    requires l !in g.outs
    ensures PredCount(incoming, l) == 0
  {
    if incoming != [] {
      NoPred(g, incoming[..|incoming| - 1], l);
    }
  }

  lemma BeginPhis(g: Graph, out: Values)
    requires PhisMatchEdges(g) && g.outs.Keys == g.edges.Keys && g.queue != [] && Queued(g, g.queue[0])
    ensures PhisMatchEdges(Begin(g, out))
  {
    var g' := Begin(g, out);
    forall p: Pc, id: Id | Head(p) in g'.blocks
      ensures id in g'.blocks[Head(p)].phis && PhiMatchesEdges(g', p, g'.blocks[Head(p)].phis[id], id)
    {
      var incoming := g.blocks[Head(p)].phis[id];
      assert PhiMatchesEdges(g, p, incoming, id);
      NoPred(g, incoming, Head(g.queue[0].pc));
    }
  }

  lemma StillQueued(g: Graph, out: Values, i: nat)
    requires QueueCorrect(g) && i + 1 < |g.queue|
    ensures Queued(Begin(g, out), g.queue[i + 1])
  {
    assert Queued(g, g.queue[i + 1]) && g.queue[0].pc != g.queue[i + 1].pc;
  }

  lemma StillInQueue(g: Graph, out: Values, pc: Pc)
    requires g.queue != [] && InQueue(g.queue, pc) && g.queue[0].pc != pc
    ensures InQueue(Begin(g, out).queue, pc)
  {
    var i :| 0 <= i < |g.queue| && g.queue[i].pc == pc;
    assert g.queue[1..][i - 1] == g.queue[i];
  }

  lemma BeginQueue(g: Graph, out: Values)
    requires QueueCorrect(g) && g.queue != []
    ensures QueueCorrect(Begin(g, out))
  {
    hide Queued, InQueue;
    var g' := Begin(g, out);
    forall i | 0 <= i < |g'.queue|
      ensures Queued(g', g'.queue[i])
    {
      StillQueued(g, out, i);
    }
    forall l | l in g'.blocks && l !in g'.outs
      ensures l.Head? && InQueue(g'.queue, l.pc)
    {
      StillInQueue(g, out, l.pc);
    }
  }

  lemma FirstQueued(g: Graph)
    requires QueueCorrect(g) && g.queue != []
    ensures Queued(g, g.queue[0])
  {
  }

  lemma BeginKeeps(prog: Program, ranges: seq<Range>, entry: Pc, g: Graph, out: Values)
    requires Inv(prog, ranges, entry, g, {}) && g.queue != []
    ensures Inv(prog, ranges, entry, Begin(g, out), {Head(g.queue[0].pc)})
  {
    hide Finished, PhisMatchEdges, QueueCorrect;
    FirstQueued(g);
    BeginPhis(g, out);
    BeginQueue(g, out);
    assert forall l :: l in g.outs ==> BlockClosed(prog, ranges, entry, g, l);
  }

  lemma SetBlockPhis(g: Graph, l: Label, code: seq<Line>, terms: seq<Term>)
    requires PhisMatchEdges(g) && l in g.blocks
    ensures PhisMatchEdges(SetBlock(g, l, code, terms))
  {
    var g' := SetBlock(g, l, code, terms);
    forall p: Pc, id: Id | Head(p) in g'.blocks
      ensures id in g'.blocks[Head(p)].phis && PhiMatchesEdges(g', p, g'.blocks[Head(p)].phis[id], id)
    {
      assert PhiMatchesEdges(g, p, g.blocks[Head(p)].phis[id], id);
    }
  }

  lemma SetBlockQueue(g: Graph, l: Label, code: seq<Line>, terms: seq<Term>)
    requires QueueCorrect(g) && l in g.blocks && l in g.outs
    ensures QueueCorrect(SetBlock(g, l, code, terms))
  {
    assert forall i :: 0 <= i < |g.queue| ==> Queued(g, g.queue[i]);
  }

  lemma SetBlockKeeps(prog: Program, ranges: seq<Range>, entry: Pc, g: Graph, l: Label, code: seq<Line>, terms: seq<Term>)
    requires Inv(prog, ranges, entry, g, {l})
    ensures Inv(prog, ranges, entry, SetBlock(g, l, code, terms), {l})
  {
    hide Finished, PhisMatchEdges, QueueCorrect;
    SetBlockPhis(g, l, code, terms);
    SetBlockQueue(g, l, code, terms);
    assert forall k :: k in g.outs && k != l ==> BlockClosed(prog, ranges, entry, g, k);
  }

  /** Filling in a block for the last time closes it. */
  lemma CloseBlock(prog: Program, ranges: seq<Range>, entry: Pc, g: Graph, l: Label, code: seq<Line>, terms: seq<Term>)
    requires Inv(prog, ranges, entry, g, {l})
    requires Finished(prog, ranges, entry, l, g.blocks[l].(code := code, terms := terms), g.outs[l])
    requires g.edges[l] == if terms == [] then [] else Targets(terms[0])
    ensures Inv(prog, ranges, entry, SetBlock(g, l, code, terms), {})
  {
    hide Finished, PhisMatchEdges, QueueCorrect, EdgesLeadToUnits;
    SetBlockKeeps(prog, ranges, entry, g, l, code, terms);
    assert BlockClosed(prog, ranges, entry, SetBlock(g, l, code, terms), l);
  }

  // The empty function with its entry block.

  function Start(out: Values): Graph {
    Graph(map[Entry := Block(map[], [], [])], [], map[Entry := out], map[Entry := []])
  }

  lemma StartKeeps(prog: Program, ranges: seq<Range>, entry: Pc, out: Values)
    ensures Inv(prog, ranges, entry, Start(out), {Entry})
  {
  }

  /** The function after the entry block has been generated. */
  function WithEntry(entry: Pc, code: seq<Line>, out: Values): Graph {
    var g := FindCreate(SetBlock(Start(out), Entry, code, []), entry, Entry);
    SetBlock(g, Entry, code, [Br(entry)])
  }

  lemma WithEntryKeeps(prog: Program, ranges: seq<Range>, entry: Pc, code: seq<Line>, out: Values)
    requires Scoped(code, Entry) && LocalValues(out, Entry, |code|) && EntryShows(entry, code, out)
    ensures Inv(prog, ranges, entry, WithEntry(entry, code, out), {})
  {
    StartKeeps(prog, ranges, entry, out);
    var g1 := SetBlock(Start(out), Entry, code, []);
    SetBlockKeeps(prog, ranges, entry, Start(out), Entry, code, []);
    FindCreateKeeps(prog, ranges, entry, g1, entry, Entry);
    CloseBlock(prog, ranges, entry, FindCreate(g1, entry, Entry), Entry, code, [Br(entry)]);
  }

  // One round of the worklist.

  lemma NextUnit(prog: Program, ranges: seq<Range>, entry: Pc, g: Graph)
    requires Inv(prog, ranges, entry, g, {}) && g.queue != []
    ensures Queued(g, g.queue[0]) && LocalValues(PhiValues(Head(g.queue[0].pc)), Head(g.queue[0].pc), 0)
    ensures PhisComplete(g.blocks)
  {
    hide Finished, EdgesLeadToUnits;
    EveryIdOnce();
  }

  lemma PhisStayComplete(g: Graph, g': Graph, l: Label)
    requires PhisComplete(g.blocks) && l in g.blocks && g'.blocks.Keys == g.blocks.Keys
    requires g'.blocks[l].phis == g.blocks[l].phis
    requires forall k :: k in g.blocks && k != l ==> g'.blocks[k] == g.blocks[k]
    ensures PhisComplete(g'.blocks)
  {
  }

  lemma ExitKeeps(prog: Program, ranges: seq<Range>, entry: Pc, g: Graph, code: seq<Line>, out: Values)
    requires Inv(prog, ranges, entry, g, {}) && g.queue != [] && !InRange(ranges, g.queue[0].pc)
    requires Scoped(code, Head(g.queue[0].pc)) && ExitStores(code, PhiValues(Head(g.queue[0].pc)))
    ensures Head(g.queue[0].pc) in g.blocks
    ensures Inv(prog, ranges, entry, SetBlock(Begin(g, out), Head(g.queue[0].pc), code, [Ret]), {})
  {
    hide PhisMatchEdges, EdgesLeadToUnits, QueueCorrect, ExitStores, Scoped, UnitBlock, EntryBlock;
    BeginKeeps(prog, ranges, entry, g, out);
    CloseBlock(prog, ranges, entry, Begin(g, out), Head(g.queue[0].pc), code, [Ret]);
  }

  /** The graph once a unit has been translated: its code, an edge to each target in the order
      of the find_create calls, and its terminator. */
  function WithUnit(g: Graph, code: seq<Line>, out: Values, t: Term): Graph
    requires g.queue != [] && Head(g.queue[0].pc) in g.blocks
  {
    var l := Head(g.queue[0].pc);
    SetBlock(AddTargets(SetBlock(Begin(g, out), l, code, []), Targets(t), l), l, code, [t])
  }

  function AddTargets(g: Graph, targets: seq<Pc>, pred: Label): (g': Graph)
    requires pred in g.blocks && pred in g.outs && pred in g.edges
    ensures pred in g'.blocks && g'.outs == g.outs && g'.edges.Keys == g.edges.Keys
    ensures g'.edges[pred] == g.edges[pred] + targets
  {
    if targets == [] then g
    else FindCreate(AddTargets(g, targets[..|targets| - 1], pred), targets[|targets| - 1], pred)
  }

  lemma AddOne(g: Graph, to: Pc, pred: Label)
    requires pred in g.blocks && pred in g.outs && pred in g.edges
    ensures AddTargets(g, [to], pred) == FindCreate(g, to, pred)
  {
    assert [to][..0] == [];
  }

  lemma AddTwo(g: Graph, to: Pc, to': Pc, pred: Label)
    requires pred in g.blocks && pred in g.outs && pred in g.edges
    ensures AddTargets(g, [to, to'], pred) == FindCreate(FindCreate(g, to, pred), to', pred)
  {
    assert [to, to'][..1] == [to];
    AddOne(g, to, pred);
  }

  lemma {:induction false} AddTargetsKeeps(prog: Program, ranges: seq<Range>, entry: Pc, g: Graph, targets: seq<Pc>, pred: Label)
    requires Inv(prog, ranges, entry, g, {pred})
    requires pred in g.blocks && pred in g.outs && pred in g.edges && g.edges[pred] == []
    requires forall id: Id :: id in g.outs[pred]
    ensures Inv(prog, ranges, entry, AddTargets(g, targets, pred), {pred})
  {
    hide Inv, AddEdge, CreateUnit;
    if targets != [] {
      var k := |targets| - 1;
      AddTargetsKeeps(prog, ranges, entry, g, targets[..k], pred);
      FindCreateKeeps(prog, ranges, entry, AddTargets(g, targets[..k], pred), targets[k], pred);
    }
  }

  /** The block of the next unit with its code but no edges yet. */
  lemma OpenKeeps(prog: Program, ranges: seq<Range>, entry: Pc, g: Graph, code: seq<Line>, out: Values)
    requires Inv(prog, ranges, entry, g, {}) && g.queue != []
    ensures var l := Head(g.queue[0].pc);
            l in g.blocks
            && Inv(prog, ranges, entry, SetBlock(Begin(g, out), l, code, []), {l})
  {
    hide Finished, PhisMatchEdges, QueueCorrect, EdgesLeadToUnits;
    BeginKeeps(prog, ranges, entry, g, out);
    SetBlockKeeps(prog, ranges, entry, Begin(g, out), Head(g.queue[0].pc), code, []);
  }

  lemma TargetsKeep(prog: Program, ranges: seq<Range>, entry: Pc, g: Graph, code: seq<Line>, out: Values, targets: seq<Pc>)
    requires Inv(prog, ranges, entry, g, {}) && g.queue != []
    requires forall id: Id :: id in out
    ensures var l := Head(g.queue[0].pc);
            l in g.blocks
            && var g' := AddTargets(SetBlock(Begin(g, out), l, code, []), targets, l);
            Inv(prog, ranges, entry, g', {l}) && g'.outs[l] == out && g'.edges[l] == targets
  {
    hide Inv, PhiValues;
    OpenKeeps(prog, ranges, entry, g, code, out);
    AddTargetsKeeps(prog, ranges, entry, SetBlock(Begin(g, out), Head(g.queue[0].pc), code, []), targets, Head(g.queue[0].pc));
  }

  lemma MakesUnit(prog: Program, pc: Pc, ins: Insn, size: nat, code: seq<Line>, out: Values, t: Term)
    requires Scoped(code, Head(pc)) && LocalValues(out, Head(pc), |code|)
    requires !t.Ret? && LeaveInScope(LeaveOf(t), Head(pc), |code|)
    requires Implements(prog, pc, ins, size, code, out, LeaveOf(t))
    ensures UnitBlock(prog, pc, ins, size, Block(map[], code, [t]), out)
  {
    hide Scoped, LocalValues, Implements, LeaveInScope;
  }

  lemma UnitFinished(prog: Program, ranges: seq<Range>, entry: Pc, pc: Pc, ins: Insn, size: nat, phis: map<Id, seq<Incoming>>,
                     code: seq<Line>, out: Values, t: Term)
    requires InRange(ranges, pc) && prog.decode(pc) == Success(ins, size)
    requires UnitBlock(prog, pc, ins, size, Block(map[], code, [t]), out)
    ensures Finished(prog, ranges, entry, Head(pc), Block(phis, code, [t]), out)
  {
    hide Scoped, LocalValues, Implements, InRange, LeaveInScope;
  }

  lemma UnitKeeps(prog: Program, ranges: seq<Range>, entry: Pc, g: Graph, ins: Insn, size: nat,
                  code: seq<Line>, out: Values, t: Term)
    requires Inv(prog, ranges, entry, g, {}) && g.queue != [] && InRange(ranges, g.queue[0].pc)
    requires prog.decode(g.queue[0].pc) == Success(ins, size)
    requires UnitBlock(prog, g.queue[0].pc, ins, size, Block(map[], code, [t]), out)
    requires forall id: Id :: id in out
    ensures Head(g.queue[0].pc) in g.blocks
    ensures Inv(prog, ranges, entry, WithUnit(g, code, out, t), {})
  {
    hide Inv, UnitBlock, Finished, InRange, Targets;
    var pc := g.queue[0].pc;
    TargetsKeep(prog, ranges, entry, g, code, out, Targets(t));
    var g' := AddTargets(SetBlock(Begin(g, out), Head(pc), code, []), Targets(t), Head(pc));
    UnitFinished(prog, ranges, entry, pc, ins, size, g'.blocks[Head(pc)].phis, code, out, t);
    CloseBlock(prog, ranges, entry, g', Head(pc), code, [t]);
  }

  lemma DroppedKeeps(prog: Program, ranges: seq<Range>, entry: Pc, g: Graph, out: Values)
    requires Inv(prog, ranges, entry, g, {}) && g.queue != [] && InRange(ranges, g.queue[0].pc)
    requires prog.decode(g.queue[0].pc).SoftFail?
    ensures Inv(prog, ranges, entry, Begin(g, out), {})
  {
    hide PhisMatchEdges, EdgesLeadToUnits, QueueCorrect, ExitBlock, Scoped, EntryBlock, UnitBlock;
    var l := Head(g.queue[0].pc);
    NextUnit(prog, ranges, entry, g);
    BeginKeeps(prog, ranges, entry, g, out);
    assert BlockClosed(prog, ranges, entry, Begin(g, out), l);
  }

  // What the invariant says once the worklist is empty.

  /** The phi nodes of a unit have one entry per edge that ends there, counted per predecessor
      over the terminators themselves, and each entry is the predecessor's final binding. */
  lemma PhisAtEnd(prog: Program, ranges: seq<Range>, entry: Pc, g: Graph, pc: Pc, id: Id, pred: Label)
    requires Closed(prog, ranges, entry, g) && Head(pc) in g.blocks && pred in g.blocks
    ensures id in g.blocks[Head(pc)].phis
    ensures var incoming := g.blocks[Head(pc)].phis[id];
            && (forall k :: 0 <= k < |incoming| ==> incoming[k].pred in g.blocks)
            && PredCount(incoming, pred) ==
                 TargetCount(if g.blocks[pred].terms == [] then [] else Targets(g.blocks[pred].terms[0]), pc)
  {
    hide Finished, EdgesLeadToUnits;
    assert PhiMatchesEdges(g, pc, g.blocks[Head(pc)].phis[id], id);
    assert pred in g.outs && BlockClosed(prog, ranges, entry, g, pred);
  }

  /** Every block has exactly one terminator, except the units whose encoding was potentially
      invalid: those have none. */
  lemma TerminatorsAtEnd(prog: Program, ranges: seq<Range>, entry: Pc, g: Graph, l: Label)
    requires Closed(prog, ranges, entry, g) && l in g.blocks
    ensures var dropped := l.Head? && InRange(ranges, l.pc) && prog.decode(l.pc).SoftFail?;
            |g.blocks[l].terms| == if dropped then 0 else 1
  {
    hide PhisMatchEdges, EdgesLeadToUnits, Implements, Scoped, LocalValues, ExitStores, EntryShows;
    assert l in g.outs && BlockClosed(prog, ranges, entry, g, l);
  }
}
