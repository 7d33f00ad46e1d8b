/** The threads above the stub link: any number of blocking calls, each with its own condition
    and reference, one sender, one receiver, and a stub that answers every command once and in
    order, mixed with asynchronous messages. Every atomic step of a thread is one step here. */
module StubProtocol {
  import opened Words
  import opened Messages

  type CallId = nat

  /** A message from the stub. `answers` is the command the stub answers with it; it is not on
      the wire and no thread looks at it. */
  datatype Incoming = Incoming(msg: Message, answers: CallId)

  /** Where the thread of a blocking call is: it has acquired its condition; it has queued its
      command; it waits; it has been notified; it holds its condition again; it has returned. */
  datatype Phase = Holding | Enqueued | Waiting | Notified | Reacquired | Returned

  datatype Owner = Free | Caller | Sender

  datatype Reference = Unset | Set(value: Incoming)

  datatype Call = Call(command: Message, phase: Phase, owner: Owner, ref: Reference)

  /** Where the sender thread is, with the command it is busy with. A timeout ends the thread. */
  datatype SenderState =
    | Idle
    | Got(id: CallId)
    | AwaitingReply(id: CallId)
    | Acquiring(id: CallId, reply: Incoming)
    | Setting(id: CallId, reply: Incoming)
    | Notifying(id: CallId)
    | Releasing(id: CallId)
    | Stopped

  datatype System = System(
    calls: map<CallId, Call>,
    queuedCommands: seq<CallId>,
    sender: SenderState,
    toStub: seq<CallId>,
    toHost: seq<Incoming>,
    synchronousMessages: seq<Incoming>,
    asynchronous: seq<Message>,
    abandoned: set<CallId>)

  function Start(): System {
    System(map[], [], Idle, [], [], [], [], {})
  }

  // Names and opcodes correspond one to one in the message table.

  predicate IsAsynchronous(m: Message) {
    m.State? || m.Pagefault? || m.InfoException?
  }

  /** The commands that have a blocking call, and the replies each one expects. */
  predicate IsCommand(m: Message) {
    m.SetRegister? || m.GetRegister? || m.ReadMemory? || m.WriteMemory? || m.ReadUntypedMemory?
    || m.WriteUntypedMemory? || m.CodeletExecute? || m.ResumeVm?
  }

  predicate Expected(command: Message, reply: Message)
    requires IsCommand(command)
  {
    reply.ReplyError? ||
    match command
    case SetRegister(_, _) => reply.ReplyOk?
    case GetRegister(_) => reply.ReplyGetRegister?
    case ReadMemory(_, _) => reply.ReplyReadMemory?
    case WriteMemory(_, _, _) => reply.ReplyOk?
    case ReadUntypedMemory(_, _) => reply.ReplyReadUntypedMemory?
    case WriteUntypedMemory(_, _, _) => reply.ReplyOk?
    case CodeletExecute(_) => reply.ReplyCodeletExecutionFinished?
    case ResumeVm => reply.ReplyOk?
  }

  datatype Step =
    | CallerStart(id: CallId, command: Message)
    | CallerPut(id: CallId)
    | CallerWait(id: CallId)
    | CallerWake(id: CallId)
    | CallerReturn(id: CallId)
    | SenderGet
    | SenderSend
    | SenderReceive
    | SenderTimeout
    | SenderAcquire
    | SenderSet
    | SenderNotify
    | SenderRelease
    | StubAnswer(msg: Message)
    | StubAsynchronous(msg: Message)
    | Receive

  predicate InPhase(s: System, id: CallId, phase: Phase) {
    id in s.calls && s.calls[id].phase == phase
  }

  predicate CanAcquire(s: System, id: CallId) {
    id in s.calls && s.calls[id].owner.Free?
  }

  predicate Enabled(s: System, step: Step) {
    match step
    case CallerStart(id, command) => id !in s.calls && IsCommand(command)
    case CallerPut(id) => InPhase(s, id, Holding)
    case CallerWait(id) => InPhase(s, id, Enqueued)
    case CallerWake(id) => InPhase(s, id, Notified) && CanAcquire(s, id)
    case CallerReturn(id) => InPhase(s, id, Reacquired)
    case SenderGet => s.sender.Idle? && s.queuedCommands != []
    case SenderSend => s.sender.Got?
    case SenderReceive => s.sender.AwaitingReply? && s.synchronousMessages != [] && s.sender.id in s.calls
                          && IsCommand(s.calls[s.sender.id].command)
    case SenderTimeout => s.sender.AwaitingReply? && s.synchronousMessages == []
    case SenderAcquire => s.sender.Acquiring? && CanAcquire(s, s.sender.id)
    case SenderSet => s.sender.Setting? && s.sender.id in s.calls
    case SenderNotify => s.sender.Notifying? && s.sender.id in s.calls
    case SenderRelease => s.sender.Releasing? && s.sender.id in s.calls
    case StubAnswer(msg) => s.toStub != [] && !IsAsynchronous(msg)
    case StubAsynchronous(msg) => IsAsynchronous(msg)
    case Receive => s.toHost != []
  }

  function SetCall(s: System, id: CallId, c: Call): System {
    s.(calls := s.calls[id := c])
  }

  /** Waiting releases the condition in the same step; a notification reaches a call only if it
      is waiting, and is lost otherwise. */
  function Apply(s: System, step: Step): System
    requires Enabled(s, step)
  {
    match step
    case CallerStart(id, command) => SetCall(s, id, Call(command, Holding, Caller, Unset))
    case CallerPut(id) =>
      SetCall(s, id, s.calls[id].(phase := Enqueued)).(queuedCommands := s.queuedCommands + [id])
    case CallerWait(id) => SetCall(s, id, s.calls[id].(phase := Waiting, owner := Free))
    case CallerWake(id) => SetCall(s, id, s.calls[id].(phase := Reacquired, owner := Caller))
    case CallerReturn(id) => SetCall(s, id, s.calls[id].(phase := Returned, owner := Free))
    case SenderGet => s.(queuedCommands := s.queuedCommands[1..], sender := Got(s.queuedCommands[0]))
    case SenderSend => s.(toStub := s.toStub + [s.sender.id], sender := AwaitingReply(s.sender.id))
    case SenderReceive =>
      var reply := s.synchronousMessages[0];
      var s' := s.(synchronousMessages := s.synchronousMessages[1..]);
      if Expected(s.calls[s.sender.id].command, reply.msg) then s'.(sender := Acquiring(s.sender.id, reply))
      else s'.(sender := Idle, abandoned := s.abandoned + {s.sender.id})
    case SenderTimeout => s.(sender := Stopped, abandoned := s.abandoned + {s.sender.id})
    case SenderAcquire =>
      SetCall(s, s.sender.id, s.calls[s.sender.id].(owner := Sender)).(sender := Setting(s.sender.id, s.sender.reply))
    case SenderSet =>
      SetCall(s, s.sender.id, s.calls[s.sender.id].(ref := Set(s.sender.reply))).(sender := Notifying(s.sender.id))
    case SenderNotify =>
      var c := s.calls[s.sender.id];
      SetCall(s, s.sender.id, if c.phase.Waiting? then c.(phase := Notified) else c).(sender := Releasing(s.sender.id))
    case SenderRelease => SetCall(s, s.sender.id, s.calls[s.sender.id].(owner := Free)).(sender := Idle)
    case StubAnswer(msg) => s.(toStub := s.toStub[1..], toHost := s.toHost + [Incoming(msg, s.toStub[0])])
    case StubAsynchronous(msg) => s.(toHost := s.toHost + [Incoming(msg, 0)])
    case Receive =>
      var m := s.toHost[0];
      var s' := s.(toHost := s.toHost[1..]);
      if IsAsynchronous(m.msg) then s'.(asynchronous := s.asynchronous + [m.msg])
      else s'.(synchronousMessages := s.synchronousMessages + [m])
  }

  /** A run is any interleaving: a step that is not enabled when its turn comes does not happen. */
  function After(steps: seq<Step>): System {
    if steps == [] then Start()
    else
      var s, step := After(steps[..|steps| - 1]), steps[|steps| - 1];
      if Enabled(s, step) then Apply(s, step) else s
  }

  // The invariant.

  predicate Current(sender: SenderState, id: CallId) {
    !sender.Idle? && !sender.Stopped? && sender.id == id
  }

  predicate HoldsCondition(sender: SenderState, id: CallId) {
    (sender.Setting? || sender.Notifying? || sender.Releasing?) && sender.id == id
  }

  /** The reference holds the stub's answer to this very command, and one that it expects. */
  predicate OwnReply(c: Call, id: CallId, reply: Incoming) {
    IsCommand(c.command) && reply.answers == id && Expected(c.command, reply.msg)
  }

  predicate Unanswered(c: Call) {
    (c.phase.Enqueued? || c.phase.Waiting?) && c.ref.Unset?
  }

  predicate CallCorrect(s: System, id: CallId)
    requires id in s.calls
  {
    var c := s.calls[id];
    && IsCommand(c.command)
    && (c.owner.Caller? <==> c.phase.Holding? || c.phase.Enqueued? || c.phase.Reacquired?)
    && (c.owner.Sender? <==> HoldsCondition(s.sender, id))
    && (c.phase.Notified? || c.phase.Reacquired? || c.phase.Returned? ==> c.ref.Set? && OwnReply(c, id, c.ref.value))
    && (c.phase.Holding? ==> id !in s.abandoned && c.ref.Unset?)
    && (c.phase.Enqueued? || c.phase.Waiting? ==>
          id in s.queuedCommands || Current(s.sender, id) || id in s.abandoned)
  }

  ghost predicate QueueCorrect(s: System) {
    && (forall i :: 0 <= i < |s.queuedCommands| ==>
          var id := s.queuedCommands[i];
          id in s.calls && Unanswered(s.calls[id]) && !Current(s.sender, id))
    && (forall i, j :: 0 <= i < j < |s.queuedCommands| ==> s.queuedCommands[i] != s.queuedCommands[j])
  }

  predicate SenderCorrect(s: System) {
    match s.sender
    case Idle => true
    case Stopped => true
    case Got(id) => id in s.calls && Unanswered(s.calls[id])
    case AwaitingReply(id) => id in s.calls && Unanswered(s.calls[id])
    case Acquiring(id, r) => id in s.calls && Unanswered(s.calls[id]) && OwnReply(s.calls[id], id, r)
    case Setting(id, r) => InPhase(s, id, Waiting) && s.calls[id].ref.Unset? && OwnReply(s.calls[id], id, r)
    case Notifying(id) => InPhase(s, id, Waiting) && s.calls[id].ref.Set? && OwnReply(s.calls[id], id, s.calls[id].ref.value)
    case Releasing(id) => InPhase(s, id, Notified)
  }

  /** The commands that the synchronous messages answer. */
  function Answered(ms: seq<Incoming>): seq<CallId> {
    if ms == [] then []
    else (if IsAsynchronous(ms[0].msg) then [] else [ms[0].answers]) + Answered(ms[1..])
  }

  /** The commands that have been sent and whose answers the sender has not taken, oldest first. */
  function InFlight(s: System): seq<CallId> {
    Answered(s.synchronousMessages) + Answered(s.toHost) + s.toStub
  }

  predicate FlightCorrect(s: System) {
    && (forall i :: 0 <= i < |s.synchronousMessages| ==> !IsAsynchronous(s.synchronousMessages[i].msg))
    && (s.sender.Stopped? || InFlight(s) == if s.sender.AwaitingReply? then [s.sender.id] else [])
  }

  ghost predicate Inv(s: System) {
    s.abandoned <= s.calls.Keys && (forall id :: id in s.calls ==> CallCorrect(s, id)) && QueueCorrect(s) && SenderCorrect(s) && FlightCorrect(s)
  }

  // The steps keep it.

  lemma StartKeeps(s: System, id: CallId, command: Message)
    requires Inv(s) && Enabled(s, CallerStart(id, command))
    ensures Inv(Apply(s, CallerStart(id, command)))
  {
    hide Expected, Answered, IsCommand;
    var s' := Apply(s, CallerStart(id, command));
    forall k | k in s'.calls
      ensures CallCorrect(s', k)
    {
      assert k in s.calls ==> CallCorrect(s, k);
    }
  }

  lemma PutQueues(s: System, id: CallId)
    requires Inv(s) && Enabled(s, CallerPut(id))
    ensures QueueCorrect(Apply(s, CallerPut(id)))
  {
    hide Expected, Answered, IsCommand, FlightCorrect;
    var s' := Apply(s, CallerPut(id));
    assert CallCorrect(s, id);
    forall i | 0 <= i < |s.queuedCommands|
      ensures s.queuedCommands[i] in s.calls && s.queuedCommands[i] != id
    {
      assert Unanswered(s.calls[s.queuedCommands[i]]);
    }
  }

  lemma PutKeeps(s: System, id: CallId)
    requires Inv(s) && Enabled(s, CallerPut(id))
    ensures Inv(Apply(s, CallerPut(id)))
  {
    hide Expected, Answered, IsCommand, QueueCorrect;
    PutQueues(s, id);
    var s' := Apply(s, CallerPut(id));
    forall k | k in s'.calls
      ensures CallCorrect(s', k)
    {
      assert CallCorrect(s, k);
      assert k in s.queuedCommands ==> k in s'.queuedCommands;
    }
  }

  lemma WaitKeeps(s: System, id: CallId)
    requires Inv(s) && Enabled(s, CallerWait(id))
    ensures Inv(Apply(s, CallerWait(id)))
  {
    hide Expected, Answered, IsCommand;
    var s' := Apply(s, CallerWait(id));
    forall k | k in s'.calls
      ensures CallCorrect(s', k)
    {
      assert k in s.calls ==> CallCorrect(s, k);
    }
  }

  lemma WakeKeeps(s: System, id: CallId)
    requires Inv(s) && Enabled(s, CallerWake(id))
    ensures Inv(Apply(s, CallerWake(id)))
  {
    hide Expected, Answered, IsCommand;
    var s' := Apply(s, CallerWake(id));
    forall k | k in s'.calls
      ensures CallCorrect(s', k)
    {
      assert k in s.calls ==> CallCorrect(s, k);
    }
  }

  lemma ReturnKeeps(s: System, id: CallId)
    requires Inv(s) && Enabled(s, CallerReturn(id))
    ensures Inv(Apply(s, CallerReturn(id)))
  {
    hide Expected, Answered, IsCommand;
    var s' := Apply(s, CallerReturn(id));
    forall k | k in s'.calls
      ensures CallCorrect(s', k)
    {
      assert k in s.calls ==> CallCorrect(s, k);
    }
  }

  lemma GetKeeps(s: System)
    requires Inv(s) && Enabled(s, SenderGet)
    ensures Inv(Apply(s, SenderGet))
  {
    hide Expected, Answered, IsCommand;
    var s' := Apply(s, SenderGet);
    forall k | k in s'.calls
      ensures CallCorrect(s', k)
    {
      assert k in s.calls ==> CallCorrect(s, k);
    }
  }

  lemma SendKeeps(s: System)
    requires Inv(s) && Enabled(s, SenderSend)
    ensures Inv(Apply(s, SenderSend))
  {
    hide Expected, Answered, IsCommand;
    var s' := Apply(s, SenderSend);
    forall k | k in s'.calls
      ensures CallCorrect(s', k)
    {
      assert k in s.calls ==> CallCorrect(s, k);
    }
  }

  lemma TimeoutKeeps(s: System)
    requires Inv(s) && Enabled(s, SenderTimeout)
    ensures Inv(Apply(s, SenderTimeout))
  {
    hide Expected, Answered, IsCommand;
    var s' := Apply(s, SenderTimeout);
    forall k | k in s'.calls
      ensures CallCorrect(s', k)
    {
      assert k in s.calls ==> CallCorrect(s, k);
    }
  }

  lemma AcquireKeeps(s: System)
    requires Inv(s) && Enabled(s, SenderAcquire)
    ensures Inv(Apply(s, SenderAcquire))
  {
    hide Expected, Answered, IsCommand;
    var s' := Apply(s, SenderAcquire);
    forall k | k in s'.calls
      ensures CallCorrect(s', k)
    {
      assert k in s.calls ==> CallCorrect(s, k);
    }
  }

  lemma SetKeeps(s: System)
    requires Inv(s) && Enabled(s, SenderSet)
    ensures Inv(Apply(s, SenderSet))
  {
    hide Expected, Answered, IsCommand;
    var s' := Apply(s, SenderSet);
    forall k | k in s'.calls
      ensures CallCorrect(s', k)
    {
      assert k in s.calls ==> CallCorrect(s, k);
    }
  }

  lemma NotifyKeeps(s: System)
    requires Inv(s) && Enabled(s, SenderNotify)
    ensures Inv(Apply(s, SenderNotify))
  {
    hide Expected, Answered, IsCommand;
    var s' := Apply(s, SenderNotify);
    forall k | k in s'.calls
      ensures CallCorrect(s', k)
    {
      assert k in s.calls ==> CallCorrect(s, k);
    }
  }

  lemma ReleaseKeeps(s: System)
    requires Inv(s) && Enabled(s, SenderRelease)
    ensures Inv(Apply(s, SenderRelease))
  {
    hide Expected, Answered, IsCommand;
    var s' := Apply(s, SenderRelease);
    forall k | k in s'.calls
      ensures CallCorrect(s', k)
    {
      assert k in s.calls ==> CallCorrect(s, k);
    }
  }

  lemma {:induction false} AnsweredAppend(a: seq<Incoming>, b: seq<Incoming>)
    ensures Answered(a + b) == Answered(a) + Answered(b)
  {
    hide IsAsynchronous;
    if a == [] {
      assert a + b == b;
    } else {
      var own: seq<CallId> := if IsAsynchronous(a[0].msg) then [] else [a[0].answers];
      AnsweredAppend(a[1..], b);
      assert (a + b)[1..] == a[1..] + b;
      assert own + (Answered(a[1..]) + Answered(b)) == (own + Answered(a[1..])) + Answered(b);
    }
  }

  lemma AnsweredOne(m: Incoming)
    ensures Answered([m]) == if IsAsynchronous(m.msg) then [] else [m.answers]
  {
    assert Answered([]) == [];
  }

  /** One more message behind the others. */
  lemma AnsweredNext(a: seq<Incoming>, m: Incoming)
    ensures Answered(a + [m]) == Answered(a) + if IsAsynchronous(m.msg) then [] else [m.answers]
  {
    AnsweredAppend(a, [m]);
    AnsweredOne(m);
  }

  lemma ReceiveKeepsFlight(s: System)
    requires Enabled(s, Receive)
    ensures InFlight(Apply(s, Receive)) == InFlight(s)
  {
    hide IsAsynchronous, IsCommand;
    var m := s.toHost[0];
    var own: seq<CallId> := if IsAsynchronous(m.msg) then [] else [m.answers];
    AnsweredNext(s.synchronousMessages, m);
    assert Answered(s.toHost) == own + Answered(s.toHost[1..]);
    hide Answered;
    assert (Answered(s.synchronousMessages) + own) + Answered(s.toHost[1..])
           == Answered(s.synchronousMessages) + (own + Answered(s.toHost[1..]));
  }

  /** The stub and the receiver only move commands and their answers along. */
  lemma TransportKeeps(s: System, step: Step)
    requires Enabled(s, step)
    requires step.StubAnswer? || step.StubAsynchronous? || step.Receive?
    ensures InFlight(Apply(s, step)) == InFlight(s)
  {
    hide Answered, IsAsynchronous, IsCommand;
    match step
    case StubAnswer(msg) => AnsweredNext(s.toHost, Incoming(msg, s.toStub[0]));
    case StubAsynchronous(msg) => AnsweredNext(s.toHost, Incoming(msg, 0));
    case Receive => ReceiveKeepsFlight(s);
  }

  lemma StubAndReceiverKeep(s: System, step: Step)
    requires Inv(s) && Enabled(s, step)
    requires step.StubAnswer? || step.StubAsynchronous? || step.Receive?
    ensures Inv(Apply(s, step))
  {
    hide InFlight, Expected;
    TransportKeeps(s, step);
    var s' := Apply(s, step);
    forall id | id in s'.calls
      ensures CallCorrect(s', id)
    {
      assert CallCorrect(s, id);
    }
  }

  /** The answer that the sender takes is the one to the command it has sent. */
  lemma TakenAnswer(s: System)
    requires FlightCorrect(s) && s.sender.AwaitingReply? && s.synchronousMessages != []
    ensures s.synchronousMessages[0].answers == s.sender.id
    ensures Answered(s.synchronousMessages[1..]) + Answered(s.toHost) + s.toStub == []
  {
    assert InFlight(s)[0] == s.synchronousMessages[0].answers;
    assert InFlight(s)[1..] == Answered(s.synchronousMessages[1..]) + Answered(s.toHost) + s.toStub;
  }

  lemma ReceiveKeeps(s: System)
    requires Inv(s) && Enabled(s, SenderReceive)
    ensures Inv(Apply(s, SenderReceive))
  {
    hide Answered, Expected;
    TakenAnswer(s);
    var s' := Apply(s, SenderReceive);
    forall id | id in s'.calls
      ensures CallCorrect(s', id)
    {
      assert CallCorrect(s, id);
    }
  }

  lemma StepKeeps(s: System, step: Step)
    requires Inv(s) && Enabled(s, step)
    ensures Inv(Apply(s, step))
  {
    hide Inv, Apply, Enabled;
    match step
    case SenderReceive => ReceiveKeeps(s);
    case StubAnswer(_) => StubAndReceiverKeep(s, step);
    case StubAsynchronous(_) => StubAndReceiverKeep(s, step);
    case Receive => StubAndReceiverKeep(s, step);
    case CallerStart(id, command) => StartKeeps(s, id, command);
    case CallerPut(id) => PutKeeps(s, id);
    case CallerWait(id) => WaitKeeps(s, id);
    case CallerWake(id) => WakeKeeps(s, id);
    case CallerReturn(id) => ReturnKeeps(s, id);
    case SenderGet => GetKeeps(s);
    case SenderSend => SendKeeps(s);
    case SenderTimeout => TimeoutKeeps(s);
    case SenderAcquire => AcquireKeeps(s);
    case SenderSet => SetKeeps(s);
    case SenderNotify => NotifyKeeps(s);
    case SenderRelease => ReleaseKeeps(s);
  }

  lemma {:induction false} RunKeeps(steps: seq<Step>)
    ensures Inv(After(steps))
  {
    if steps != [] {
      hide Inv, Apply, Enabled;
      RunKeeps(steps[..|steps| - 1]);
      var s := After(steps[..|steps| - 1]);
      if Enabled(s, steps[|steps| - 1]) {
        StepKeeps(s, steps[|steps| - 1]);
      }
    }
  }

  // What every interleaving gives the callers.

  /** No notification is lost: whenever the sender notifies, the caller is waiting, and the step
      wakes it. */
  lemma NotifyFindsWaiter(steps: seq<Step>)
    requires Enabled(After(steps), SenderNotify)
    ensures var s := After(steps);
            InPhase(s, s.sender.id, Waiting) && InPhase(Apply(s, SenderNotify), s.sender.id, Notified)
  {
    hide Expected;
    RunKeeps(steps);
  }

  /** A caller that has been woken holds the stub's reply to its own command: an error, or the
      confirmation that this command has. */
  lemma WokenHasOwnReply(steps: seq<Step>, id: CallId)
    requires var s := After(steps);
             InPhase(s, id, Notified) || InPhase(s, id, Reacquired) || InPhase(s, id, Returned)
    ensures var c := After(steps).calls[id];
            c.ref.Set? && OwnReply(c, id, c.ref.value) && c.ref.value.answers == id
            && var m := c.ref.value.msg;
            !m.ReplyError? ==>
              && (c.command.SetRegister? ==> m.ReplyOk?)
              && (c.command.WriteMemory? ==> m.ReplyOk?)
              && (c.command.WriteUntypedMemory? ==> m.ReplyOk?)
              && (c.command.ResumeVm? ==> m.ReplyOk?)
              && (c.command.CodeletExecute? ==> m.ReplyCodeletExecutionFinished?)
              && (c.command.ReadMemory? ==> m.ReplyReadMemory?)
              && (c.command.GetRegister? ==> m.ReplyGetRegister?)
              && (c.command.ReadUntypedMemory? ==> m.ReplyReadUntypedMemory?)
  {
    RunKeeps(steps);
    assert CallCorrect(After(steps), id);
  }

  /** A caller that waits is waiting for something: its command is still queued or being served,
      or the stub answered with a name it does not expect, or the sender timed out on it. */
  lemma WaitingIsAccountedFor(steps: seq<Step>, id: CallId)
    requires InPhase(After(steps), id, Waiting)
    ensures var s := After(steps);
            id in s.queuedCommands || Current(s.sender, id) || id in s.abandoned
  {
    hide Expected;
    RunKeeps(steps);
    assert CallCorrect(After(steps), id);
  }

  /** The condition of a call is never held by two threads, and the sender can always acquire it
      once the caller waits. */
  lemma SenderIsNotLockedOut(steps: seq<Step>)
    requires After(steps).sender.Acquiring?
    ensures var s := After(steps);
            s.sender.id in s.calls
            && (Enabled(s, SenderAcquire) <==> s.calls[s.sender.id].phase.Waiting?)
            && (Enabled(s, SenderAcquire) || Enabled(s, CallerWait(s.sender.id)))
  {
    hide Expected;
    RunKeeps(steps);
    assert CallCorrect(After(steps), After(steps).sender.id);
  }

  // The same by the numbers on the wire.

  /** The reply that confirms each command that has a blocking call. */
  const REPLY_OPCODES: map<Byte, Byte> :=
    map[0x01 := 0x90, 0x02 := 0xB1, 0x03 := 0x91, 0x04 := 0xB1, 0x05 := 0x94, 0x06 := 0xB1, 0x07 := 0x95, 0x40 := 0xB1]

  /** Which messages are commands, and which are no replies. */
  lemma OpcodesDecide(m: Message)
    ensures IsCommand(m) <==> Opcode(m) in REPLY_OPCODES
    ensures IsAsynchronous(m) <==> Opcode(m) in {0x81, 0xA4, 0xA0}
  {
  }

  lemma ExpectedOpcodes(command: Message, reply: Message)
    requires IsCommand(command)
    ensures Opcode(command) in REPLY_OPCODES
    ensures Expected(command, reply) <==> Opcode(reply) == 0xB2 || Opcode(reply) == REPLY_OPCODES[Opcode(command)]
  {
  }

  /** The converse: whenever the sender takes a reply, it goes on to wake the caller exactly if the
      reply is an error or confirms the command; and only otherwise is the call abandoned. */
  lemma TakenReply(steps: seq<Step>)
    requires Enabled(After(steps), SenderReceive)
    ensures var s, s' := After(steps), Apply(After(steps), SenderReceive);
            var id, reply := s.sender.id, s.synchronousMessages[0];
            var command, m := s.calls[id].command, reply.msg;
            var right :=
              m.ReplyError?
              || ((command.SetRegister? || command.WriteMemory? || command.WriteUntypedMemory? || command.ResumeVm?) && m.ReplyOk?)
              || (command.CodeletExecute? && m.ReplyCodeletExecutionFinished?)
              || (command.ReadMemory? && m.ReplyReadMemory?)
              || (command.GetRegister? && m.ReplyGetRegister?)
              || (command.ReadUntypedMemory? && m.ReplyReadUntypedMemory?);
            && reply.answers == id
            && (right ==> s'.sender == Acquiring(id, reply) && s'.abandoned == s.abandoned)
            && (!right ==> s'.sender.Idle? && s'.abandoned == s.abandoned + {id})
  {
    RunKeeps(steps);
    hide Answered;
    TakenAnswer(After(steps));
  }

  // What the blocking methods return.

  datatype Outcome = Returns(value: int) | ReturnsData(data: seq<Byte>) | ReturnsNothing | RemoteError(error: int) | AttributeError

  /** The end of a blocking call, given the reply in its reference. Setting a register ignores
      an error reply. */
  function CallOutcome(command: Message, reply: Message): Outcome {
    if command.SetRegister? then ReturnsNothing
    else if reply.ReplyError? then RemoteError(reply.error)
    else match command
      case GetRegister(_) =>
        if reply.ReplyGetRegister? || reply.ReplyReadMemory? then Returns(reply.value) else AttributeError
      case ReadMemory(_, _) =>
        if reply.ReplyGetRegister? || reply.ReplyReadMemory? then Returns(reply.value) else AttributeError
      case ReadUntypedMemory(_, _) =>
        if reply.ReplyReadUntypedMemory? || reply.ReplyExtractPage? then ReturnsData(reply.data) else AttributeError
      case _ => ReturnsNothing
  }

  /** No call that returns fails on a reply of the wrong kind. A read returns the value or the
      data of the stub's answer to this very command; a write, a codelet and a resumption return
      once the stub confirmed it; and an error reply is raised by every call but one: setting a
      register returns as if it had succeeded. */
  lemma ReturnedCall(steps: seq<Step>, id: CallId)
    requires InPhase(After(steps), id, Returned)
    ensures var c := After(steps).calls[id];
            c.ref.Set? && c.ref.value.answers == id
            && var reply, outcome := c.ref.value.msg, CallOutcome(c.command, c.ref.value.msg);
            && !outcome.AttributeError?
            && (outcome.RemoteError? <==> reply.ReplyError? && !c.command.SetRegister?)
            && (outcome.RemoteError? ==> outcome.error == reply.error)
            && (outcome.Returns? ==> reply.ReplyGetRegister? || reply.ReplyReadMemory?)
            && (c.command.GetRegister? && !reply.ReplyError? ==> reply.ReplyGetRegister? && outcome == Returns(reply.value))
            && (c.command.ReadMemory? && !reply.ReplyError? ==> reply.ReplyReadMemory? && outcome == Returns(reply.value))
            && (c.command.ReadUntypedMemory? && !reply.ReplyError? ==>
                  reply.ReplyReadUntypedMemory? && outcome == ReturnsData(reply.data))
            && (c.command.SetRegister? ==> outcome.ReturnsNothing? && (reply.ReplyOk? || reply.ReplyError?))
            && (c.command.WriteMemory? && !reply.ReplyError? ==> reply.ReplyOk? && outcome.ReturnsNothing?)
            && (c.command.WriteUntypedMemory? && !reply.ReplyError? ==> reply.ReplyOk? && outcome.ReturnsNothing?)
            && (c.command.ResumeVm? && !reply.ReplyError? ==> reply.ReplyOk? && outcome.ReturnsNothing?)
            && (c.command.CodeletExecute? && !reply.ReplyError? ==>
                  reply.ReplyCodeletExecutionFinished? && outcome.ReturnsNothing?)
            && (outcome.ReturnsNothing? <==>
                  reply.ReplyOk? || reply.ReplyCodeletExecutionFinished? || (c.command.SetRegister? && reply.ReplyError?))
  {
    WokenHasOwnReply(steps, id);
  }

  // Commands reach the stub.

  /** The commands that were queued, and those that were sent, over a run. */
  function Queued(steps: seq<Step>): seq<CallId> {
    if steps == [] then []
    else
      var init, last := steps[..|steps| - 1], steps[|steps| - 1];
      Queued(init) + if Enabled(After(init), last) then PutBy(last) else []
  }

  function Sent(steps: seq<Step>): seq<CallId> {
    if steps == [] then []
    else
      var init, last := steps[..|steps| - 1], steps[|steps| - 1];
      Sent(init) + if Enabled(After(init), last) then SentBy(After(init), last) else []
  }

  function PutBy(step: Step): seq<CallId> {
    if step.CallerPut? then [step.id] else []
  }

  function SentBy(s: System, step: Step): seq<CallId>
    requires Enabled(s, step)
  {
    if step.SenderSend? then [s.sender.id] else []
  }

  /** What has been queued and not yet sent: the command that the sender has taken, if any, and
      the queue. */
  function Pending(s: System): seq<CallId> {
    (if s.sender.Got? then [s.sender.id] else []) + s.queuedCommands
  }

  lemma StepMovesCommands(s: System, step: Step)
    requires Enabled(s, step)
    ensures SentBy(s, step) + Pending(Apply(s, step)) == Pending(s) + PutBy(step)
  {
    hide IsCommand, Expected;
    if step.SenderGet? {
      assert s.queuedCommands == [s.queuedCommands[0]] + s.queuedCommands[1..];
    }
  }

  lemma Regroup(a: seq<CallId>, b: seq<CallId>, c: seq<CallId>, d: seq<CallId>, e: seq<CallId>)
    requires b + c == d + e
    ensures (a + b) + c == (a + d) + e
  {
    assert (a + b) + c == a + (b + c);
    assert (a + d) + e == a + (d + e);
  }

  /** Commands are sent in the order in which they were queued, and none is lost. */
  lemma {:induction false} CommandsInOrder(steps: seq<Step>)
    ensures Queued(steps) == Sent(steps) + Pending(After(steps))
  {
    if steps != [] {
      hide Apply, Enabled, Pending, PutBy, SentBy;
      var init, step := steps[..|steps| - 1], steps[|steps| - 1];
      CommandsInOrder(init);
      var s := After(init);
      if Enabled(s, step) {
        StepMovesCommands(s, step);
        Regroup(Sent(init), SentBy(s, step), Pending(Apply(s, step)), Pending(s), PutBy(step));
      } else {
        assert Queued(steps) == Queued(init) && Sent(steps) == Sent(init);
      }
    }
  }

  /** The caller is past holding its condition, for good. */
  predicate Past(s: System, id: CallId) {
    id in s.calls && !s.calls[id].phase.Holding?
  }

  lemma StaysPast(s: System, step: Step, id: CallId)
    requires Enabled(s, step)
    ensures Past(s, id) ==> Past(Apply(s, step), id)
    ensures id in PutBy(step) ==> !Past(s, id) && Past(Apply(s, step), id)
  {
    hide IsCommand, Expected;
  }

  /** Every command is queued at most once, and so sent at most once. */
  lemma {:induction false} CommandsOnce(steps: seq<Step>)
    ensures forall i :: 0 <= i < |Queued(steps)| ==> Past(After(steps), Queued(steps)[i])
    ensures forall i, j :: 0 <= i < j < |Queued(steps)| ==> Queued(steps)[i] != Queued(steps)[j]
    ensures Sent(steps) <= Queued(steps)
  {
    CommandsInOrder(steps);
    if steps != [] {
      hide Apply, Enabled, Past, Sent, Pending;
      var init, step := steps[..|steps| - 1], steps[|steps| - 1];
      CommandsOnce(init);
      var s := After(init);
      if Enabled(s, step) {
        forall i | 0 <= i < |Queued(steps)|
          ensures Past(After(steps), Queued(steps)[i])
          ensures i < |Queued(init)| ==> Past(s, Queued(steps)[i])
        {
          StaysPast(s, step, Queued(steps)[i]);
        }
        if step.CallerPut? {
          StaysPast(s, step, step.id);
        }
      }
    }
  }

  // Asynchronous messages.

  function Asynchronous(ms: seq<Incoming>): seq<Message> {
    if ms == [] then []
    else Asynchronous(ms[..|ms| - 1]) + if IsAsynchronous(ms[|ms| - 1].msg) then [ms[|ms| - 1].msg] else []
  }

  function Issued(steps: seq<Step>): seq<Message> {
    if steps == [] then []
    else
      var init, last := steps[..|steps| - 1], steps[|steps| - 1];
      Issued(init) + if last.StubAsynchronous? && IsAsynchronous(last.msg) then [last.msg] else []
  }

  lemma {:induction false} AsynchronousPrepend(m: Incoming, ms: seq<Incoming>)
    ensures Asynchronous([m] + ms) == (if IsAsynchronous(m.msg) then [m.msg] else []) + Asynchronous(ms)
  {
    if ms == [] {
      assert [m] + ms == [m] && [m][..0] == [];
    } else {
      assert ([m] + ms)[..|ms|] == [m] + ms[..|ms| - 1];
      AsynchronousPrepend(m, ms[..|ms| - 1]);
    }
  }

  lemma AsynchronousAppend(ms: seq<Incoming>, m: Incoming)
    ensures Asynchronous(ms + [m]) == Asynchronous(ms) + if IsAsynchronous(m.msg) then [m.msg] else []
  {
    assert (ms + [m])[..|ms|] == ms;
  }

  lemma StepIssues(s: System, step: Step)
    requires Enabled(s, step)
    ensures var s' := Apply(s, step);
            s'.asynchronous + Asynchronous(s'.toHost)
              == s.asynchronous + Asynchronous(s.toHost) + if step.StubAsynchronous? then [step.msg] else []
  {
    hide Asynchronous, IsAsynchronous;
    match step
    case Receive =>
      AsynchronousPrepend(s.toHost[0], s.toHost[1..]);
      assert s.toHost == [s.toHost[0]] + s.toHost[1..];
    case StubAnswer(msg) => AsynchronousAppend(s.toHost, Incoming(msg, s.toStub[0]));
    case StubAsynchronous(msg) => AsynchronousAppend(s.toHost, Incoming(msg, 0));
    case _ =>
  }

  /** Asynchronous messages are handled once each, in the order the stub issued them, and none
      of them is ever taken for a reply. */
  lemma {:induction false} AsynchronousInOrder(steps: seq<Step>)
    ensures var s := After(steps);
            s.asynchronous + Asynchronous(s.toHost) == Issued(steps)
  {
    if steps != [] {
      hide Apply, Enabled, Asynchronous;
      AsynchronousInOrder(steps[..|steps| - 1]);
      var s, step := After(steps[..|steps| - 1]), steps[|steps| - 1];
      if Enabled(s, step) {
        StepIssues(s, step);
      }
    }
  }
}
