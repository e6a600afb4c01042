/** The UDP actor: one task that owns the socket, commands from application threads, and
    buffers on lease to the application.  Application and actor steps interleave freely;
    socket results are arbitrary. */
module Actor {
  import opened Wrappers

  datatype Command = Allocate(max: nat) | Send(packets: seq<nat>) | Shutdown

  datatype Result = Ok | Err

  /** Where the actor task is. */
  datatype Pc =
    | Commands | Flush1 | DrainTx | Flush2 | Recv | Check | Wait
    | Closing(result: Result) | Waiting(result: Result) | Done(result: Result)

  /** Command channel: everything ever sent into it, and how much of that the actor has
      handled or, at the end, thrown away. */
  datatype Channel = Channel(log: seq<Command>, handled: nat, discarded: nat, closed: bool, sendersGone: bool)

  /** The atomic counter and the buffers that the application holds, those in the reply
      and receive channels included. */
  datatype Leases = Leases(outstanding: int, outside: multiset<nat>)

  /** Task-local variables; `accepted` is what the socket took so far, and `flushed` whether
      the flush under way got any packet accepted. */
  datatype Local = Local(pc: Pc, pending: seq<nat>, accepted: seq<nat>, rxOpen: bool, commandsOpen: bool,
                         shutdown: bool, progressed: bool, flushed: bool)

  datatype State = State(ch: Channel, le: Leases, me: Local)

  datatype Step =
    // application threads
    | AppSends(command: Command)
    | AppDrops(buffer: nat)
    | AppLeaves
    // actor task, with the socket's answers
    | TakeCommand(allocation: Option<seq<nat>>)
    | NoCommand
    | FlushSome(n: nat)
    | FlushFails(n: nat)
    | FlushDone(notifyOk: bool)
    | Drain(completed: Option<nat>)
    | Receive(received: Option<seq<nat>>, delivered: bool)
    | SkipReceive
    | CheckDone
    | WakeUp(ok: bool)
    | WakeWithCommand(allocation: Option<seq<nat>>)
    | WakeDisconnected
    | DiscardCommand
    | ChannelEmpty
    | BuffersReturned

  // ---------------------------------------------------------------- commands

  ghost predicate ChannelOk(ch: Channel) { ch.handled + ch.discarded <= |ch.log| }

  /** Commands still in the channel. */
  function Queue(ch: Channel): seq<Command>
    requires ch.handled + ch.discarded <= |ch.log|
  {
    ch.log[ch.handled + ch.discarded..]
  }

  function PacketsOf(c: Command): seq<nat> { if c.Send? then c.packets else [] }

  /** Packets of the commands, in order. */
  function Packets(commands: seq<Command>): seq<nat>
  {
    if commands == [] then [] else PacketsOf(commands[0]) + Packets(commands[1..])
  }

  /** Commands ahead of the first shutdown. */
  function BeforeShutdown(commands: seq<Command>): seq<Command>
  {
    if commands == [] || commands[0].Shutdown? then [] else [commands[0]] + BeforeShutdown(commands[1..])
  }

  // ---------------------------------------------------------------- steps

  predicate Running(pc: Pc) { !pc.Closing? && !pc.Waiting? && !pc.Done? }

  predicate Enabled(s: State, step: Step, capacity: nat)
    requires s.ch.handled + s.ch.discarded <= |s.ch.log|
  {
    var pc := s.me.pc;
    match step
    case AppSends(c) => !s.ch.closed && !s.ch.sendersGone && multiset(PacketsOf(c)) <= s.le.outside
    case AppDrops(b) => b in s.le.outside
    case AppLeaves => true
    case TakeCommand(_) =>
      pc.Commands? && s.me.commandsOpen && !s.me.shutdown && |s.me.pending| < capacity && Queue(s.ch) != []
    case NoCommand =>
      pc.Commands? && (!s.me.commandsOpen || s.me.shutdown || |s.me.pending| >= capacity || Queue(s.ch) == [])
    case FlushSome(n) => (pc.Flush1? || pc.Flush2?) && 1 <= n <= |s.me.pending|
    case FlushFails(n) => (pc.Flush1? || pc.Flush2?) && s.me.pending != [] && n <= |s.me.pending|
    case FlushDone(notifyOk) => (pc.Flush1? || pc.Flush2?) && (notifyOk || s.me.flushed)
    case Drain(_) => pc.DrainTx?
    case Receive(_, _) => pc.Recv? && s.me.rxOpen && !s.me.shutdown
    case SkipReceive => pc.Recv? && (!s.me.rxOpen || s.me.shutdown)
    case CheckDone => pc.Check?
    case WakeUp(_) => pc.Wait?
    case WakeWithCommand(_) => pc.Wait? && s.me.commandsOpen && !s.me.shutdown && Queue(s.ch) != []
    case WakeDisconnected => pc.Wait? && s.me.commandsOpen && !s.me.shutdown && Queue(s.ch) == [] && s.ch.sendersGone
    case DiscardCommand => pc.Closing? && Queue(s.ch) != []
    case ChannelEmpty => pc.Closing? && Queue(s.ch) == []
    case BuffersReturned => pc.Waiting? && s.le.outstanding == 0
  }

  function Lease(le: Leases, buffers: seq<nat>): Leases
  {
    Leases(le.outstanding + |buffers|, le.outside + multiset(buffers))
  }

  /** Leaving `run_actor_inner`: the caller closes the channel next. */
  function Return(s: State, result: Result): State
  {
    s.(ch := s.ch.(closed := true), me := s.me.(pc := Closing(result)))
  }

  /** `handle_command` on the head of the queue; a shutdown ends the command loop. */
  function Handled(s: State, allocation: Option<seq<nat>>): State
    requires s.ch.handled + s.ch.discarded <= |s.ch.log| && Queue(s.ch) != []
  {
    var c := Queue(s.ch)[0];
    var ch := s.ch.(handled := s.ch.handled + 1);
    match c
    case Allocate(_) =>
      State(ch, if allocation.Some? then Lease(s.le, allocation.value) else s.le,
            s.me.(pc := Commands, progressed := s.me.pc.Commands?))
    case Send(packets) =>
      // Turning the buffers into transmit requests releases their leases.
      State(ch, s.le.(outstanding := s.le.outstanding - |packets|),
            s.me.(pc := Commands, progressed := s.me.pc.Commands?, pending := s.me.pending + packets))
    case Shutdown =>
      State(ch.(closed := true), s.le,
            s.me.(pc := Flush1, progressed := s.me.pc.Commands?, shutdown := true, commandsOpen := false))
  }

  function Next(s: State, step: Step, capacity: nat): State
    requires s.ch.handled + s.ch.discarded <= |s.ch.log| && Enabled(s, step, capacity)
  {
    var me := s.me;
    match step
    case AppSends(c) =>
      s.(ch := s.ch.(log := s.ch.log + [c]), le := s.le.(outside := s.le.outside - multiset(PacketsOf(c))))
    case AppDrops(b) => s.(le := Leases(s.le.outstanding - 1, s.le.outside - multiset{b}))
    case AppLeaves => s.(ch := s.ch.(sendersGone := true))
    case TakeCommand(allocation) => Handled(s, allocation)
    case NoCommand =>
      // A closed and empty channel reports that all senders are gone.
      var gone := me.commandsOpen && !me.shutdown && |me.pending| < capacity && s.ch.sendersGone;
      s.(me := me.(pc := Flush1, commandsOpen := me.commandsOpen && !gone))
    case FlushSome(n) => s.(me := me.(pending := me.pending[n..], accepted := me.accepted + me.pending[..n],
                                      progressed := true, flushed := true))
    case FlushFails(n) =>
      Return(s.(me := me.(pending := me.pending[n..], accepted := me.accepted + me.pending[..n])), Err)
    case FlushDone(notifyOk) =>
      // The completion notification is due only if the flush got something accepted.
      if !notifyOk then Return(s, Err)
      else s.(me := me.(pc := if me.pc.Flush1? then DrainTx else Recv, flushed := false))
    case Drain(completed) =>
      if completed.None? then Return(s, Err)
      else s.(me := me.(pc := Flush2, progressed := me.progressed || completed.value != 0))
    case Receive(received, delivered) =>
      if received.None? then Return(s, Err)
      else if received.value == [] then s.(me := me.(pc := Check))
      else if delivered then State(s.ch, Lease(s.le, received.value), me.(pc := Check, progressed := true))
      else s.(me := me.(pc := Check, progressed := true, rxOpen := false))
    case SkipReceive => s.(me := me.(pc := Check))
    case CheckDone =>
      if (me.shutdown || (!me.commandsOpen && !me.rxOpen)) && me.pending == [] then Return(s, Ok)
      else s.(me := me.(pc := if me.progressed then Commands else Wait, progressed := false))
    case WakeUp(ok) => if ok then s.(me := me.(pc := Commands)) else Return(s, Err)
    case WakeWithCommand(allocation) => Handled(s, allocation)
    case WakeDisconnected => s.(me := me.(pc := Commands, commandsOpen := false))
    case DiscardCommand =>
      s.(ch := s.ch.(discarded := s.ch.discarded + 1),
         le := s.le.(outstanding := s.le.outstanding - |PacketsOf(Queue(s.ch)[0])|))
    case ChannelEmpty => s.(me := me.(pc := Waiting(me.pc.result)))
    case BuffersReturned => s.(me := me.(pc := Done(me.pc.result)))
  }

  function Init(): State
  {
    State(Channel([], 0, 0, false, false), Leases(0, multiset{}),
          Local(Commands, [], [], true, true, false, false, false))
  }

  predicate IsRun(s: State, steps: seq<Step>, capacity: nat)
    decreases |steps|
  {
    s.ch.handled + s.ch.discarded <= |s.ch.log|
    && (steps == [] || (Enabled(s, steps[0], capacity) && IsRun(Next(s, steps[0], capacity), steps[1..], capacity)))
  }

  function Exec(s: State, steps: seq<Step>, capacity: nat): State
    requires IsRun(s, steps, capacity)
    decreases |steps|
  {
    if steps == [] then s else Exec(Next(s, steps[0], capacity), steps[1..], capacity)
  }

  // ---------------------------------------------------------------- invariant

  /** The counter is the number of live leases: buffers with the application and
      buffers inside queued commands. */
  ghost predicate LeasesOk(s: State)
    requires ChannelOk(s.ch)
  {
    s.le.outstanding == |s.le.outside| + |Packets(Queue(s.ch))|
  }

  /** What the socket accepted, followed by what is pending, is what the handled
      commands carried, in command order. */
  ghost predicate OrderOk(s: State)
    requires ChannelOk(s.ch)
  {
    s.me.accepted + s.me.pending == Packets(s.ch.log[..s.ch.handled])
  }

  /** Only the last handled command can be a shutdown, and exactly then one is under way. */
  ghost predicate ShutdownOk(s: State)
    requires ChannelOk(s.ch)
  {
    && (forall i :: 0 <= i < s.ch.handled && s.ch.log[i].Shutdown? ==> i == s.ch.handled - 1 && s.me.shutdown)
    && (s.me.shutdown ==> s.ch.handled > 0 && s.ch.log[s.ch.handled - 1].Shutdown? && s.ch.closed && !s.me.commandsOpen)
    && (!s.me.commandsOpen && !s.me.shutdown ==> s.ch.sendersGone && Queue(s.ch) == [])
  }

  ghost predicate PcOk(s: State)
    requires ChannelOk(s.ch)
  {
    match s.me.pc
    case Closing(r) => s.ch.closed && (r.Ok? ==> AllAccepted(s))
    case Waiting(r) => s.ch.closed && Queue(s.ch) == [] && (r.Ok? ==> AllAccepted(s))
    case Done(r) => s.ch.closed && Queue(s.ch) == [] && s.le.outside == multiset{} && (r.Ok? ==> AllAccepted(s))
    case _ => s.ch.discarded == 0
  }

  /** Every packet of a command ahead of the first shutdown was accepted, in order. */
  ghost predicate AllAccepted(s: State) { s.me.accepted == Packets(BeforeShutdown(s.ch.log)) }

  ghost predicate Inv(s: State)
  {
    && ChannelOk(s.ch) && LeasesOk(s) && PcOk(s)
    && (Running(s.me.pc) ==> OrderOk(s) && ShutdownOk(s))
    && s.me.accepted <= Packets(s.ch.log[..s.ch.handled])
  }
}
