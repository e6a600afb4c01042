/** Runs of the actor told from their steps alone: why it ends and with which result, which
    buffers went out on lease and came back, and when it receives and when it waits. */
module ActorHistory {
  import opened Wrappers
  import opened Actor
  import opened ActorRuns

  // ---------------------------------------------------------------- what the steps say

  /** The commands the application sent. */
  function Sent(steps: seq<Step>): seq<Command>
  {
    if steps == [] then []
    else
      var last := steps[|steps| - 1];
      Sent(steps[..|steps| - 1]) + (if last.AppSends? then [last.command] else [])
  }

  predicate Takes(step: Step) { step.TakeCommand? || step.WakeWithCommand? }

  /** How many commands the actor handled. */
  function Taken(steps: seq<Step>): nat
  {
    if steps == [] then 0 else Taken(steps[..|steps| - 1]) + (if Takes(steps[|steps| - 1]) then 1 else 0)
  }

  /** A shutdown is among the first `n` commands. */
  ghost predicate ShutdownAmong(commands: seq<Command>, n: nat)
  {
    exists i :: 0 <= i < n && i < |commands| && commands[i].Shutdown?
  }

  /** A shutdown was handled. */
  ghost predicate ShutdownHandled(steps: seq<Step>) { ShutdownAmong(Sent(steps), Taken(steps)) }

  /** A batch was received and the application no longer listens. */
  predicate Undeliverable(step: Step)
  {
    step.Receive? && step.received.Some? && step.received.value != [] && !step.delivered
  }

  ghost predicate ReceiverGone(steps: seq<Step>) { exists k :: 0 <= k < |steps| && Undeliverable(steps[k]) }

  /** A flush, a notification, a drain, a receive or a wait that failed. */
  predicate Fails(step: Step)
  {
    || step.FlushFails? || step == FlushDone(false) || step == Drain(None)
    || (step.Receive? && step.received.None?) || step == WakeUp(false)
  }

  ghost predicate Failed(steps: seq<Step>) { exists k :: 0 <= k < |steps| && Fails(steps[k]) }

  /** Buffers that a step, after these steps, puts on lease: a delivered batch, or the reply
      to an allocation. */
  function LeasedBy(steps: seq<Step>, step: Step): seq<nat>
  {
    match step
    case Receive(Some(batch), true) => batch
    case TakeCommand(Some(buffers)) =>
      if Taken(steps) < |Sent(steps)| && Sent(steps)[Taken(steps)].Allocate? then buffers else []
    case WakeWithCommand(Some(buffers)) =>
      if Taken(steps) < |Sent(steps)| && Sent(steps)[Taken(steps)].Allocate? then buffers else []
    case _ => []
  }

  /** All buffers ever put on lease. */
  function Leased(steps: seq<Step>): multiset<nat>
  {
    if steps == [] then multiset{}
    else
      var front := steps[..|steps| - 1];
      Leased(front) + multiset(LeasedBy(front, steps[|steps| - 1]))
  }

  /** Buffers that a step takes from the application: dropped, or sent. */
  function ReturnedBy(step: Step): seq<nat>
  {
    match step case AppDrops(b) => [b] case AppSends(c) => PacketsOf(c) case _ => []
  }

  function Returned(steps: seq<Step>): multiset<nat>
  {
    if steps == [] then multiset{}
    else Returned(steps[..|steps| - 1]) + multiset(ReturnedBy(steps[|steps| - 1]))
  }

  /** Packets that the socket accepted in a step, those ahead of a failure included. */
  function AcceptedBy(step: Step): nat { match step case FlushSome(n) => n case FlushFails(n) => n case _ => 0 }

  function Accepted(steps: seq<Step>): nat
  {
    if steps == [] then 0 else Accepted(steps[..|steps| - 1]) + AcceptedBy(steps[|steps| - 1])
  }

  /** Since the last check or wake-up: a command, an accepted packet, a completion or a batch. */
  predicate Progressed(steps: seq<Step>)
  {
    if steps == [] then false
    else
      match steps[|steps| - 1]
      case TakeCommand(_) => true
      case FlushSome(_) => true
      case Drain(Some(n)) => n != 0 || Progressed(steps[..|steps| - 1])
      case Receive(Some(batch), _) => batch != [] || Progressed(steps[..|steps| - 1])
      case CheckDone => false
      case WakeWithCommand(_) => false
      case _ => Progressed(steps[..|steps| - 1])
  }

  // ---------------------------------------------------------------- invariant

  /** The actor may end without an error: a shutdown was handled, or all senders are gone with
      every command handled and the receiver is gone too. */
  ghost predicate MayEnd(steps: seq<Step>)
  {
    || ShutdownHandled(steps)
    || (AppLeaves in steps && Taken(steps) == |Sent(steps)| && ReceiverGone(steps))
  }

  ghost predicate FlagsTold(steps: seq<Step>, s: State)
  {
    && (s.me.rxOpen <==> !ReceiverGone(steps)) && (s.me.shutdown <==> ShutdownHandled(steps))
    && (s.ch.sendersGone <==> AppLeaves in steps)
    && (Running(s.me.pc) ==> s.me.progressed == Progressed(steps))
  }

  /** The result the actor is ending or has ended with. */
  function Ended(pc: Pc): Option<Result>
  {
    match pc case Closing(r) => Some(r) case Waiting(r) => Some(r) case Done(r) => Some(r) case _ => None
  }

  /** It ends with an error exactly when some step failed, and without one only when it may. */
  ghost predicate ResultTold(steps: seq<Step>, ended: Option<Result>)
  {
    && (ended == Some(Err) <==> Failed(steps))
    && (ended == Some(Ok) ==> MayEnd(steps))
  }

  ghost predicate Told(steps: seq<Step>, s: State)
  {
    && s.ch.log == Sent(steps) && s.ch.handled == Taken(steps) && |s.me.accepted| == Accepted(steps)
    && s.le.outside + Returned(steps) == Leased(steps)
    && FlagsTold(steps, s) && ResultTold(steps, Ended(s.me.pc))
  }

  /** One more step, in the terms above. */
  lemma OneMoreCommand(steps: seq<Step>, step: Step)
    ensures var more := steps + [step];
      && Sent(more) == Sent(steps) + (if step.AppSends? then [step.command] else [])
      && Taken(more) == Taken(steps) + (if Takes(step) then 1 else 0)
  {
    assert (steps + [step])[..|steps|] == steps;
  }

  lemma OneMoreLease(steps: seq<Step>, step: Step)
    ensures var more := steps + [step];
      && Leased(more) == Leased(steps) + multiset(LeasedBy(steps, step))
      && Returned(more) == Returned(steps) + multiset(ReturnedBy(step))
      && Accepted(more) == Accepted(steps) + AcceptedBy(step)
  {
    hide LeasedBy, ReturnedBy, AcceptedBy;
    assert (steps + [step])[..|steps|] == steps;
  }

  lemma OneMoreSeen(steps: seq<Step>, step: Step)
    ensures var more := steps + [step];
      && (AppLeaves in more <==> AppLeaves in steps || step == AppLeaves)
      && (ReceiverGone(more) <==> ReceiverGone(steps) || Undeliverable(step))
      && (Failed(more) <==> Failed(steps) || Fails(step))
  {
    var more := steps + [step];
    assert more[|steps|] == step && forall k :: 0 <= k < |steps| ==> more[k] == steps[k];
  }

  lemma OneMoreProgress(steps: seq<Step>, step: Step)
    ensures Progressed(steps + [step])
         == match step
            case TakeCommand(_) => true
            case FlushSome(_) => true
            case Drain(Some(n)) => n != 0 || Progressed(steps)
            case Receive(Some(batch), _) => batch != [] || Progressed(steps)
            case CheckDone => false
            case WakeWithCommand(_) => false
            case _ => Progressed(steps)
  {
    assert (steps + [step])[..|steps|] == steps;
  }

  lemma OneMoreShutdown(steps: seq<Step>, step: Step)
    requires Taken(steps) <= |Sent(steps)| && (Takes(step) ==> Taken(steps) < |Sent(steps)|)
    ensures ShutdownHandled(steps + [step]) <==>
              ShutdownHandled(steps) || (Takes(step) && Sent(steps)[Taken(steps)].Shutdown?)
  {
    hide Sent, Taken, ShutdownAmong;
    OneMoreCommand(steps, step);
    var commands, n := Sent(steps), Taken(steps);
    assert commands + [] == commands;
    if step.AppSends? {
      AmongLonger(commands, [step.command], n);
    } else if Takes(step) {
      AmongOneMore(commands, n);
    }
  }

  lemma AmongLonger(commands: seq<Command>, more: seq<Command>, n: nat)
    requires n <= |commands|
    ensures ShutdownAmong(commands + more, n) <==> ShutdownAmong(commands, n)
  {
    assert forall i :: 0 <= i < n ==> (commands + more)[i] == commands[i];
  }

  lemma AmongOneMore(commands: seq<Command>, n: nat)
    requires n < |commands|
    ensures ShutdownAmong(commands, n + 1) <==> ShutdownAmong(commands, n) || commands[n].Shutdown?
  {
  }

  // ---------------------------------------------------------------- one step

  /** While it runs nothing was thrown away, so the next command is the next one sent. */
  lemma NextCommand(s: State, step: Step, capacity: nat)
    requires Inv(s) && Enabled(s, step, capacity) && Takes(step)
    ensures s.ch.handled < |s.ch.log| && Queue(s.ch)[0] == s.ch.log[s.ch.handled] && Running(s.me.pc)
  {
    hide Packets, BeforeShutdown, ShutdownOk;
  }

  /** Handling a command counts it, accepts nothing, and leases what an allocation is given. */
  lemma HandledEffect(s: State, allocation: Option<seq<nat>>)
    requires ChannelOk(s.ch) && Queue(s.ch) != []
    ensures var t := Handled(s, allocation);
      && t.ch.log == s.ch.log && t.ch.handled == s.ch.handled + 1 && t.me.accepted == s.me.accepted
      && t.le.outside == s.le.outside
           + multiset(if allocation.Some? && Queue(s.ch)[0].Allocate? then allocation.value else [])
  {
    NothingBack(s.le.outside, []);
  }

  /** What a step does to the log, the count of handled commands and that of accepted packets. */
  lemma StepLog(s: State, step: Step, capacity: nat)
    requires ChannelOk(s.ch) && Enabled(s, step, capacity)
    ensures var t := Next(s, step, capacity);
      && t.ch.log == s.ch.log + (if step.AppSends? then [step.command] else [])
      && t.ch.handled == s.ch.handled + (if Takes(step) then 1 else 0)
      && |t.me.accepted| == |s.me.accepted| + AcceptedBy(step)
  {
    hide Handled, Queue;
    assert s.ch.log + [] == s.ch.log;
    match step
    case TakeCommand(allocation) => HandledEffect(s, allocation);
    case WakeWithCommand(allocation) => HandledEffect(s, allocation);
    case FlushSome(_) =>
    case FlushFails(_) =>
    case AppSends(_) =>
    case _ =>
  }

  /** And to the buffers outside: the application gives some back, */
  lemma AppLeases(s: State, step: Step, capacity: nat)
    requires ChannelOk(s.ch) && Enabled(s, step, capacity) && (step.AppSends? || step.AppDrops?)
    ensures multiset(ReturnedBy(step)) <= s.le.outside
    ensures Next(s, step, capacity).le.outside == s.le.outside - multiset(ReturnedBy(step))
  {
  }

  /** a delivered batch goes out, */
  lemma ReceiveLeases(s: State, step: Step, capacity: nat)
    requires ChannelOk(s.ch) && Enabled(s, step, capacity) && step.Receive?
    ensures Next(s, step, capacity).le.outside
         == s.le.outside + multiset(match step case Receive(Some(batch), true) => batch case _ => [])
  {
    NothingBack(s.le.outside, []);
  }

  /** and no step but those and the handling of a command moves any. */
  lemma OtherLeases(s: State, step: Step, capacity: nat)
    requires ChannelOk(s.ch) && Enabled(s, step, capacity)
    requires !step.AppSends? && !step.AppDrops? && !step.Receive? && !Takes(step)
    ensures Next(s, step, capacity).le.outside == s.le.outside
  {
    hide Handled;
    match step
    case FlushDone(_) =>
    case Drain(_) =>
    case CheckDone =>
    case WakeUp(_) =>
    case _ =>
  }

  lemma TakeLeases(s: State, step: Step, capacity: nat)
    requires ChannelOk(s.ch) && Enabled(s, step, capacity) && Takes(step)
    ensures Queue(s.ch) != [] && Next(s, step, capacity) == Handled(s, step.allocation)
  {
    hide Handled;
  }

  lemma StepLeases(steps: seq<Step>, s: State, step: Step, capacity: nat)
    requires ChannelOk(s.ch) && Enabled(s, step, capacity) && s.ch.log == Sent(steps) && s.ch.handled == Taken(steps)
    requires Takes(step) ==> s.ch.handled < |s.ch.log| && Queue(s.ch)[0] == s.ch.log[s.ch.handled]
    ensures multiset(ReturnedBy(step)) <= s.le.outside
    ensures Next(s, step, capacity).le.outside
         == s.le.outside - multiset(ReturnedBy(step)) + multiset(LeasedBy(steps, step))
  {
    hide Sent, Taken, Handled, Queue, Next, Enabled;
    var out := s.le.outside;
    NothingBack(out, LeasedBy(steps, step));
    NothingOut(out, ReturnedBy(step));
    if step.AppSends? || step.AppDrops? {
      AppLeases(s, step, capacity);
    } else if step.Receive? {
      ReceiveLeases(s, step, capacity);
    } else if Takes(step) {
      TakeLeases(s, step, capacity);
      HandledEffect(s, step.allocation);
    } else {
      OtherLeases(s, step, capacity);
    }
  }

  lemma NothingBack(out: multiset<nat>, leased: seq<nat>)
    ensures out - multiset([]) + multiset(leased) == out + multiset(leased)
    ensures out + multiset([]) == out
  {
  }

  lemma NothingOut(out: multiset<nat>, returned: seq<nat>)
    ensures out - multiset(returned) + multiset([]) == out - multiset(returned)
  {
  }

  lemma StepKeepsLedger(steps: seq<Step>, s: State, step: Step, capacity: nat)
    requires Inv(s) && Told(steps, s) && ChannelOk(s.ch) && Enabled(s, step, capacity)
    ensures var more := steps + [step]; var t := Next(s, step, capacity);
      && t.ch.log == Sent(more) && t.ch.handled == Taken(more) && |t.me.accepted| == Accepted(more)
      && t.le.outside + Returned(more) == Leased(more)
  {
    hide Inv, FlagsTold, ResultTold, Sent, Taken, Leased, Returned, Accepted, Next, Enabled, LeasedBy, ReturnedBy;
    OneMoreCommand(steps, step);
    OneMoreLease(steps, step);
    if Takes(step) { NextCommand(s, step, capacity); }
    StepLog(s, step, capacity);
    StepLeases(steps, s, step, capacity);
    Moves(s.le.outside, Returned(steps), multiset(ReturnedBy(step)), multiset(LeasedBy(steps, step)));
  }

  lemma Moves(out: multiset<nat>, back: multiset<nat>, x: multiset<nat>, y: multiset<nat>)
    requires x <= out
    ensures (out - x + y) + (back + x) == out + back + y
  {
  }

  lemma HandledFlags(s: State, allocation: Option<seq<nat>>)
    requires ChannelOk(s.ch) && Queue(s.ch) != []
    ensures var t := Handled(s, allocation);
      && t.me.rxOpen == s.me.rxOpen && t.ch.sendersGone == s.ch.sendersGone && t.me.progressed == s.me.pc.Commands?
      && t.me.shutdown == (s.me.shutdown || Queue(s.ch)[0].Shutdown?)
  {
  }

  /** What a step does to the flags. */
  lemma StepFlags(s: State, step: Step, capacity: nat)
    requires ChannelOk(s.ch) && Enabled(s, step, capacity)
    ensures var t := Next(s, step, capacity);
      && t.me.rxOpen == (s.me.rxOpen && !Undeliverable(step))
      && t.ch.sendersGone == (s.ch.sendersGone || step == AppLeaves)
      && t.me.shutdown == (s.me.shutdown || (Takes(step) && Queue(s.ch)[0].Shutdown?))
  {
    hide Queue, Handled;
    match step
    case TakeCommand(allocation) => HandledFlags(s, allocation);
    case WakeWithCommand(allocation) => HandledFlags(s, allocation);
    case Receive(_, _) =>
    case CheckDone =>
    case _ =>
  }

  /** And to the progress flag, which a new pass clears. */
  lemma StepProgress(steps: seq<Step>, s: State, step: Step, capacity: nat)
    requires ChannelOk(s.ch) && Enabled(s, step, capacity)
    requires Running(s.me.pc) ==> s.me.progressed == Progressed(steps)
    ensures Running(Next(s, step, capacity).me.pc) ==>
              Next(s, step, capacity).me.progressed == Progressed(steps + [step])
  {
    hide Progressed, Queue, Handled;
    OneMoreProgress(steps, step);
    match step
    case TakeCommand(allocation) => HandledFlags(s, allocation);
    case WakeWithCommand(allocation) => HandledFlags(s, allocation);
    case Receive(_, _) =>
    case Drain(_) =>
    case CheckDone =>
    case FlushDone(_) =>
    case WakeUp(_) =>
    case _ =>
  }

  lemma StepKeepsFlags(steps: seq<Step>, s: State, step: Step, capacity: nat)
    requires Inv(s) && Told(steps, s) && ChannelOk(s.ch) && Enabled(s, step, capacity)
    ensures FlagsTold(steps + [step], Next(s, step, capacity))
  {
    hide Inv, ResultTold, Sent, Taken, Leased, Returned, Accepted, Failed, ReceiverGone, ShutdownHandled, Progressed;
    hide Next, Enabled, Undeliverable;
    OneMoreSeen(steps, step);
    if Takes(step) { NextCommand(s, step, capacity); }
    OneMoreShutdown(steps, step);
    StepFlags(s, step, capacity);
    StepProgress(steps, s, step, capacity);
  }

  /** The check that ends the actor. */
  lemma CheckMayEnd(steps: seq<Step>, s: State)
    requires Inv(s) && Told(steps, s) && s.me.pc.Check?
    requires s.me.shutdown || (!s.me.commandsOpen && !s.me.rxOpen)
    ensures MayEnd(steps)
  {
    hide Packets, BeforeShutdown, Leased, Returned, Failed, ReceiverGone, ShutdownHandled, Progressed;
  }

  /** Once the actor is ending, only the application and the clean-up go on. */
  lemma AfterTheEnd(s: State, step: Step, capacity: nat)
    requires ChannelOk(s.ch) && Enabled(s, step, capacity) && !Running(s.me.pc)
    ensures !Takes(step) && !Fails(step) && !step.CheckDone? && (step.AppSends? ==> !s.ch.sendersGone)
  {
  }

  /** What allowed the end stays true. */
  lemma MayEndStays(steps: seq<Step>, s: State, step: Step, capacity: nat)
    requires Told(steps, s) && ChannelOk(s.ch) && Enabled(s, step, capacity) && MayEnd(steps) && !Running(s.me.pc)
    ensures MayEnd(steps + [step])
  {
    hide Leased, Returned, ReceiverGone, ShutdownHandled, ResultTold, Enabled, Takes, Sent, Taken, Accepted;
    AfterTheEnd(s, step, capacity);
    OneMoreCommand(steps, step);
    OneMoreSeen(steps, step);
    OneMoreShutdown(steps, step);
  }

  /** The clean-up keeps the result. */
  lemma EndedStays(s: State, step: Step, capacity: nat)
    requires ChannelOk(s.ch) && Enabled(s, step, capacity) && !Running(s.me.pc)
    ensures Ended(Next(s, step, capacity).me.pc) == Ended(s.me.pc)
  {
    match step
    case AppSends(_) =>
    case AppDrops(_) =>
    case AppLeaves =>
    case DiscardCommand =>
    case ChannelEmpty =>
    case BuffersReturned =>
  }

  /** A step that fails ends the actor with an error. */
  lemma FailingStep(s: State, step: Step, capacity: nat)
    requires ChannelOk(s.ch) && Enabled(s, step, capacity) && Fails(step)
    ensures Running(s.me.pc) && Ended(Next(s, step, capacity).me.pc) == Some(Err)
  {
    match step
    case FlushFails(_) =>
    case FlushDone(_) =>
    case Drain(_) =>
    case Receive(_, _) =>
    case WakeUp(_) =>
  }

  lemma HandlingGoesOn(s: State, allocation: Option<seq<nat>>)
    requires ChannelOk(s.ch) && Queue(s.ch) != []
    ensures Ended(Handled(s, allocation).me.pc) == None
  {
  }

  /** While it runs no other step but a check ends it. */
  lemma OtherStep(s: State, step: Step, capacity: nat)
    requires ChannelOk(s.ch) && Enabled(s, step, capacity) && Running(s.me.pc) && !Fails(step) && !step.CheckDone?
    ensures Ended(Next(s, step, capacity).me.pc) == None
  {
    hide Handled;
    match step
    case TakeCommand(allocation) => HandlingGoesOn(s, allocation);
    case WakeWithCommand(allocation) => HandlingGoesOn(s, allocation);
    case _ =>
  }

  lemma CheckStep(s: State, capacity: nat)
    requires ChannelOk(s.ch) && Enabled(s, CheckDone, capacity)
    ensures s.me.pc.Check?
    ensures Next(s, CheckDone, capacity).me.pc
         == if (s.me.shutdown || (!s.me.commandsOpen && !s.me.rxOpen)) && s.me.pending == [] then Closing(Ok)
            else if s.me.progressed then Commands
            else Wait
  {
  }

  lemma StepKeepsResult(steps: seq<Step>, s: State, step: Step, capacity: nat)
    requires Inv(s) && Told(steps, s) && ChannelOk(s.ch) && Enabled(s, step, capacity)
    ensures ResultTold(steps + [step], Ended(Next(s, step, capacity).me.pc))
  {
    hide Inv, Failed, MayEnd, FlagsTold, Next, Enabled, Fails, Sent, Taken, Leased, Returned, Accepted;
    OneMoreSeen(steps, step);
    if !Running(s.me.pc) {
      AfterTheEnd(s, step, capacity);
      EndedStays(s, step, capacity);
      if MayEnd(steps) { MayEndStays(steps, s, step, capacity); }
    } else if Fails(step) {
      FailingStep(s, step, capacity);
    } else if step.CheckDone? {
      CheckStep(s, capacity);
      if Next(s, step, capacity).me.pc == Closing(Ok) {
        CheckMayEnd(steps, s);
        CheckKeepsMayEnd(steps);
      }
    } else {
      OtherStep(s, step, capacity);
    }
  }

  lemma CheckKeepsMayEnd(steps: seq<Step>)
    requires MayEnd(steps) && Taken(steps) <= |Sent(steps)|
    ensures MayEnd(steps + [CheckDone])
  {
    OneMoreCommand(steps, CheckDone);
    OneMoreSeen(steps, CheckDone);
    OneMoreShutdown(steps, CheckDone);
  }

  lemma StepTold(steps: seq<Step>, s: State, step: Step, capacity: nat)
    requires Inv(s) && Told(steps, s) && ChannelOk(s.ch) && Enabled(s, step, capacity)
    ensures Told(steps + [step], Next(s, step, capacity))
  {
    hide Inv, FlagsTold, ResultTold, Next;
    StepKeepsLedger(steps, s, step, capacity);
    StepKeepsFlags(steps, s, step, capacity);
    StepKeepsResult(steps, s, step, capacity);
  }

  lemma {:induction false} RunTold(done: seq<Step>, s: State, steps: seq<Step>, capacity: nat)
    requires Inv(s) && Told(done, s) && IsRun(s, steps, capacity)
    ensures Told(done + steps, Exec(s, steps, capacity))
    decreases |steps|
  {
    hide Inv, Told, Next;
    if steps == [] {
      assert done + steps == done;
    } else {
      StepKeepsInv(s, steps[0], capacity);
      StepTold(done, s, steps[0], capacity);
      RunTold(done + [steps[0]], Next(s, steps[0], capacity), steps[1..], capacity);
      assert done + [steps[0]] + steps[1..] == done + steps;
    }
  }

  lemma EveryRunTold(steps: seq<Step>, capacity: nat)
    requires IsRun(Init(), steps, capacity)
    ensures Told(steps, Exec(Init(), steps, capacity))
  {
    InitInv();
    RunTold([], Init(), steps, capacity);
    assert [] + steps == steps;
  }

  // ---------------------------------------------------------------- main results

  /** The actor ends with an error exactly when a flush, a notification, a drain, a receive or a
      wait failed.  Without one it ends only after it handled a shutdown, or when all senders
      are gone, every command was handled, and a batch could not be delivered. */
  lemma WhyItEnds(steps: seq<Step>, capacity: nat)
    requires IsRun(Init(), steps, capacity)
    ensures var ended := Ended(Exec(Init(), steps, capacity).me.pc);
      && (ended == Some(Err) <==> Failed(steps))
      && (ended == Some(Ok) ==>
            || ShutdownHandled(steps)
            || (AppLeaves in steps && Taken(steps) == |Sent(steps)| && ReceiverGone(steps)))
  {
    hide FlagsTold, Sent, Taken, Exec, IsRun, Init, Leased, Returned, Ended, Failed, ShutdownHandled, ReceiverGone;
    EveryRunTold(steps, capacity);
  }

  /** The buffers outside are those that were delivered or allocated, less those dropped or sent;
      so the counter is that number plus the buffers in queued commands. */
  lemma LedgerOfRun(steps: seq<Step>, capacity: nat)
    requires IsRun(Init(), steps, capacity)
    ensures var s := Exec(Init(), steps, capacity);
      && s.le.outside + Returned(steps) == Leased(steps)
      && s.ch.log == Sent(steps) && ChannelOk(s.ch)
      && s.le.outstanding == |Leased(steps)| - |Returned(steps)| + |Packets(Queue(s.ch))|
  {
    EveryRunTold(steps, capacity);
    CounterIsLeases(steps, capacity);
    hide FlagsTold, ResultTold;
    var s := Exec(Init(), steps, capacity);
    assert |s.le.outside + Returned(steps)| == |s.le.outside| + |Returned(steps)|;
  }

  /** What the socket accepted is the first packets of the handled commands, as many as the
      flushes say. */
  lemma AcceptedOfRun(steps: seq<Step>, capacity: nat)
    requires IsRun(Init(), steps, capacity)
    ensures Taken(steps) <= |Sent(steps)| && Accepted(steps) <= |Packets(Sent(steps)[..Taken(steps)])|
    ensures Exec(Init(), steps, capacity).me.accepted == Packets(Sent(steps)[..Taken(steps)])[..Accepted(steps)]
  {
    EveryRunTold(steps, capacity);
    PacketsInCommandOrder(steps, capacity);
  }

  /** Up to any step, a run is a run, and that step could be taken. */
  lemma {:induction false} PrefixOfRun(s: State, steps: seq<Step>, k: nat, capacity: nat)
    requires IsRun(s, steps, capacity) && k < |steps|
    ensures IsRun(s, steps[..k], capacity)
    ensures var t := Exec(s, steps[..k], capacity);
      && t.ch.handled + t.ch.discarded <= |t.ch.log| && Enabled(t, steps[k], capacity)
      && IsRun(s, steps[..k + 1], capacity) && Exec(s, steps[..k + 1], capacity) == Next(t, steps[k], capacity)
    decreases k
  {
    hide Enabled, Next;
    if k == 0 {
      assert steps[..1][1..] == [] && steps[..0] == [];
      AfterOne(s, steps, capacity);
    } else {
      PrefixOfRun(Next(s, steps[0], capacity), steps[1..], k - 1, capacity);
      assert steps[..k][1..] == steps[1..][..k - 1] && steps[..k + 1][1..] == steps[1..][..k];
    }
  }

  lemma AfterOne(s: State, steps: seq<Step>, capacity: nat)
    requires IsRun(s, steps, capacity) && steps != []
    ensures var t := Next(s, steps[0], capacity); t.ch.handled + t.ch.discarded <= |t.ch.log|
  {
  }

  /** The socket is asked for packets exactly while no batch was undeliverable and no shutdown was
      handled. */
  lemma ReceivesWhileOpen(steps: seq<Step>, k: nat, capacity: nat)
    requires IsRun(Init(), steps, capacity) && k < |steps|
    ensures steps[k].Receive? ==> !ReceiverGone(steps[..k]) && !ShutdownHandled(steps[..k])
    ensures steps[k].SkipReceive? ==> ReceiverGone(steps[..k]) || ShutdownHandled(steps[..k])
  {
    hide ReceiverGone, ShutdownHandled, Exec, Next, IsRun, Init, Leased, Returned, Sent, Taken;
    PrefixOfRun(Init(), steps, k, capacity);
    EveryRunTold(steps[..k], capacity);
  }

  /** At a check: it ends only when it may and nothing is pending, it does end then after a shutdown, and
      it goes to wait only when nothing happened since the last check. */
  lemma CheckExact(steps: seq<Step>, k: nat, capacity: nat)
    requires IsRun(Init(), steps, capacity) && k < |steps| && steps[k].CheckDone?
    ensures IsRun(Init(), steps[..k], capacity) && IsRun(Init(), steps[..k + 1], capacity)
    ensures var pending := Exec(Init(), steps[..k], capacity).me.pending;
      var pc := Exec(Init(), steps[..k + 1], capacity).me.pc;
      && (pc == Closing(Ok) ==> MayEnd(steps[..k]) && pending == [])
      && (ShutdownHandled(steps[..k]) && pending == [] ==> pc == Closing(Ok))
      && (pc != Closing(Ok) ==> pc == if Progressed(steps[..k]) then Commands else Wait)
  {
    hide ReceiverGone, ShutdownHandled, Exec, IsRun, Init, Progressed, MayEnd, Next, Inv, Leased, Returned, Sent, Taken;
    PrefixOfRun(Init(), steps, k, capacity);
    EveryRunTold(steps[..k], capacity);
    InitInv();
    RunKeepsInv(Init(), steps[..k], capacity);
    var s := Exec(Init(), steps[..k], capacity);
    CheckStep(s, capacity);
    if s.me.shutdown || (!s.me.commandsOpen && !s.me.rxOpen) { CheckMayEnd(steps[..k], s); }
  }
}
