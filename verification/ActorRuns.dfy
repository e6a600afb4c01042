/** What every run of the actor keeps. */
module ActorRuns {
  import opened Wrappers
  import opened Actor

  // ---------------------------------------------------------------- packets and commands

  lemma {:induction false} PacketsAppend(a: seq<Command>, b: seq<Command>)
    ensures Packets(a + b) == Packets(a) + Packets(b)
  {
    if a == [] {
      assert a + b == b;
    } else {
      PacketsAppend(a[1..], b);
      HeadOfAppend(a, b);
      hide *;
      assert (PacketsOf(a[0]) + Packets(a[1..])) + Packets(b) == PacketsOf(a[0]) + (Packets(a[1..]) + Packets(b));
    }
  }

  lemma HeadOfAppend(a: seq<Command>, b: seq<Command>)
    requires a != []
    ensures Packets(a + b) == PacketsOf(a[0]) + Packets(a[1..] + b)
    ensures Packets(a) == PacketsOf(a[0]) + Packets(a[1..])
  {
    assert (a + b)[0] == a[0] && (a + b)[1..] == a[1..] + b;
  }

  lemma PacketsOne(c: Command)
    ensures Packets([c]) == PacketsOf(c)
  {
    assert [c][1..] == [];
  }

  /** Handling one more command appends its packets. */
  lemma HandleOne(log: seq<Command>, h: nat)
    requires h < |log|
    ensures Packets(log[..h + 1]) == Packets(log[..h]) + PacketsOf(log[h])
  {
    assert log[..h + 1] == log[..h] + [log[h]];
    PacketsAppend(log[..h], [log[h]]);
    PacketsOne(log[h]);
  }

  /** Taking the head of the queue removes its packets. */
  lemma QueueHead(log: seq<Command>, k: nat)
    requires k < |log|
    ensures |Packets(log[k..])| == |PacketsOf(log[k])| + |Packets(log[k + 1..])|
  {
    assert log[k..][0] == log[k] && log[k..][1..] == log[k + 1..];
  }

  /** A command at the end of the log joins the queue. */
  lemma QueueGrows(log: seq<Command>, k: nat, c: Command)
    requires k <= |log|
    ensures |Packets((log + [c])[k..])| == |Packets(log[k..])| + |PacketsOf(c)|
  {
    assert (log + [c])[k..] == log[k..] + [c];
    PacketsAppend(log[k..], [c]);
    PacketsOne(c);
  }

  lemma {:induction false} BeforeShutdownIs(log: seq<Command>, h: nat)
    requires h <= |log| && (forall i :: 0 <= i < h ==> !log[i].Shutdown?) && (h == |log| || log[h].Shutdown?)
    ensures BeforeShutdown(log) == log[..h]
    decreases h
  {
    if h > 0 {
      BeforeShutdownIs(log[1..], h - 1);
      assert log[..h] == [log[0]] + log[1..][..h - 1];
    }
  }

  // ---------------------------------------------------------------- one step

  lemma AppSendsKeepsInv(s: State, step: Step, capacity: nat)
    requires Inv(s) && Enabled(s, step, capacity) && step.AppSends?
    ensures Inv(Next(s, step, capacity))
  {
    hide Packets, BeforeShutdown;
    var k := s.ch.handled + s.ch.discarded;
    QueueGrows(s.ch.log, k, step.command);
    var log := s.ch.log + [step.command];
    assert log[..s.ch.handled] == s.ch.log[..s.ch.handled];
    OutsideShrinks(s.le.outside, PacketsOf(step.command));
  }

  lemma OutsideShrinks(outside: multiset<nat>, packets: seq<nat>)
    requires multiset(packets) <= outside
    ensures |outside - multiset(packets)| == |outside| - |packets|
  {
    assert outside == (outside - multiset(packets)) + multiset(packets);
  }

  lemma HandledKeepsInv(s: State, allocation: Option<seq<nat>>)
    requires Inv(s) && Running(s.me.pc) && s.me.commandsOpen && Queue(s.ch) != []
    ensures Inv(Handled(s, allocation))
  {
    hide Packets, BeforeShutdown, AllAccepted;
    var h := s.ch.handled;
    assert Queue(s.ch)[0] == s.ch.log[h];
    HandleOne(s.ch.log, h);
    QueueHead(s.ch.log, h);
    PendingGrows(s.me.accepted, s.me.pending, PacketsOf(s.ch.log[h]));
    match s.ch.log[h]
    case Allocate(_) =>
    case Send(_) =>
    case Shutdown =>
  }

  lemma PendingGrows(accepted: seq<nat>, pending: seq<nat>, packets: seq<nat>)
    ensures accepted + (pending + packets) == (accepted + pending) + packets
    ensures accepted + (pending + []) == accepted + pending
    ensures accepted <= accepted + (pending + packets)
  {
  }

  lemma TakeKeepsInv(s: State, step: Step, capacity: nat)
    requires Inv(s) && Enabled(s, step, capacity) && (step.TakeCommand? || step.WakeWithCommand?)
    ensures Inv(Next(s, step, capacity))
  {
    HandledKeepsInv(s, step.allocation);
  }

  lemma FlushSomeKeepsInv(s: State, step: Step, capacity: nat)
    requires Inv(s) && Enabled(s, step, capacity) && step.FlushSome?
    ensures Inv(Next(s, step, capacity))
  {
    hide Packets, BeforeShutdown, ShutdownOk;
    SplitPending(s.me.accepted, s.me.pending, step.n);
    ShutdownFrame(s, Next(s, step, capacity));
  }

  lemma FlushFailsKeepsInv(s: State, step: Step, capacity: nat)
    requires Inv(s) && Enabled(s, step, capacity) && step.FlushFails?
    ensures Inv(Next(s, step, capacity))
  {
    hide Packets, BeforeShutdown, ShutdownOk;
    SplitPending(s.me.accepted, s.me.pending, step.n);
  }

  lemma FlushDoneKeepsInv(s: State, step: Step, capacity: nat)
    requires Inv(s) && Enabled(s, step, capacity) && step.FlushDone?
    ensures Inv(Next(s, step, capacity))
  {
    hide Packets, BeforeShutdown, ShutdownOk;
    ShutdownFrame(s, Next(s, step, capacity));
  }

  lemma SplitPending(accepted: seq<nat>, pending: seq<nat>, n: nat)
    requires n <= |pending|
    ensures (accepted + pending[..n]) + pending[n..] == accepted + pending
    ensures accepted + pending[..n] <= accepted + pending
  {
  }

  /** The shutdown facts look at the channel and two flags only. */
  lemma ShutdownFrame(s: State, t: State)
    requires ChannelOk(s.ch) && ShutdownOk(s) && t.ch.log == s.ch.log
    requires t.ch.handled == s.ch.handled && t.ch.discarded == s.ch.discarded
    requires t.me.shutdown == s.me.shutdown && t.me.commandsOpen == s.me.commandsOpen
    requires (s.ch.closed ==> t.ch.closed) && (s.ch.sendersGone ==> t.ch.sendersGone)
    ensures ShutdownOk(t)
  {
  }

  lemma CheckKeepsInv(s: State, step: Step, capacity: nat)
    requires Inv(s) && Enabled(s, step, capacity) && step.CheckDone?
    ensures Inv(Next(s, step, capacity))
  {
    hide Packets, BeforeShutdown;
    var log, h := s.ch.log, s.ch.handled;
    if (s.me.shutdown || (!s.me.commandsOpen && !s.me.rxOpen)) && s.me.pending == [] {
      if s.me.shutdown {
        BeforeShutdownIs(log, h - 1);
        HandleOne(log, h - 1);
      } else {
        assert log[h..] == [] && log[..h] == log;
        BeforeShutdownIs(log, h);
      }
      assert s.me.accepted + [] == s.me.accepted;
    }
  }

  lemma DiscardKeepsInv(s: State, step: Step, capacity: nat)
    requires Inv(s) && Enabled(s, step, capacity) && step.DiscardCommand?
    ensures Inv(Next(s, step, capacity))
  {
    hide Packets, BeforeShutdown, ShutdownOk;
    QueueHead(s.ch.log, s.ch.handled + s.ch.discarded);
  }

  lemma EmptyKeepsInv(s: State, step: Step, capacity: nat)
    requires Inv(s) && Enabled(s, step, capacity) && step.ChannelEmpty?
    ensures Inv(Next(s, step, capacity))
  {
    hide Packets, BeforeShutdown, ShutdownOk;
  }

  /** With the counter at zero and the channel empty, the application holds nothing. */
  lemma ReturnedKeepsInv(s: State, step: Step, capacity: nat)
    requires Inv(s) && Enabled(s, step, capacity) && step.BuffersReturned?
    ensures Inv(Next(s, step, capacity))
  {
    hide Packets, BeforeShutdown, ShutdownOk;
    assert |s.le.outside| == 0;
  }

  lemma DropsKeepsInv(s: State, step: Step, capacity: nat)
    requires Inv(s) && Enabled(s, step, capacity) && step.AppDrops?
    ensures Inv(Next(s, step, capacity))
  {
    hide Packets, BeforeShutdown, ShutdownOk;
    OutsideShrinks(s.le.outside, [step.buffer]);
    ShutdownIfRunning(s, Next(s, step, capacity));
  }

  lemma ShutdownIfRunning(s: State, t: State)
    requires Inv(s) && t.ch.log == s.ch.log && t.ch.handled == s.ch.handled && t.ch.discarded == s.ch.discarded
    requires t.me.shutdown == s.me.shutdown && t.me.commandsOpen == s.me.commandsOpen
    requires (s.ch.closed ==> t.ch.closed) && (s.ch.sendersGone ==> t.ch.sendersGone)
    ensures Running(s.me.pc) ==> ShutdownOk(t)
  {
    hide Packets, BeforeShutdown;
    if Running(s.me.pc) { ShutdownFrame(s, t); }
  }

  lemma LeavesKeepsInv(s: State, step: Step, capacity: nat)
    requires Inv(s) && Enabled(s, step, capacity) && step.AppLeaves?
    ensures Inv(Next(s, step, capacity))
  {
    hide Packets, BeforeShutdown, ShutdownOk;
    ShutdownIfRunning(s, Next(s, step, capacity));
  }

  lemma NoCommandKeepsInv(s: State, step: Step, capacity: nat)
    requires Inv(s) && Enabled(s, step, capacity) && (step.NoCommand? || step.WakeDisconnected?)
    ensures Inv(Next(s, step, capacity))
  {
    hide Packets, BeforeShutdown;
  }

  lemma DrainKeepsInv(s: State, step: Step, capacity: nat)
    requires Inv(s) && Enabled(s, step, capacity) && step.Drain?
    ensures Inv(Next(s, step, capacity))
  {
    hide Packets, BeforeShutdown, ShutdownOk, AllAccepted;
    ShutdownFrame(s, Next(s, step, capacity));
  }

  lemma WakeKeepsInv(s: State, step: Step, capacity: nat)
    requires Inv(s) && Enabled(s, step, capacity) && step.WakeUp?
    ensures Inv(Next(s, step, capacity))
  {
    hide Packets, BeforeShutdown, ShutdownOk, AllAccepted;
    ShutdownFrame(s, Next(s, step, capacity));
  }

  lemma ReceiveKeepsInv(s: State, step: Step, capacity: nat)
    requires Inv(s) && Enabled(s, step, capacity) && (step.Receive? || step.SkipReceive?)
    ensures Inv(Next(s, step, capacity))
  {
    hide Packets, BeforeShutdown, ShutdownOk;
    ShutdownFrame(s, Next(s, step, capacity));
  }

  lemma StepKeepsInv(s: State, step: Step, capacity: nat)
    requires Inv(s) && ChannelOk(s.ch) && Enabled(s, step, capacity)
    ensures Inv(Next(s, step, capacity))
  {
    hide Inv, Next;
    match step
    case AppSends(_) => AppSendsKeepsInv(s, step, capacity);
    case AppDrops(_) => DropsKeepsInv(s, step, capacity);
    case AppLeaves => LeavesKeepsInv(s, step, capacity);
    case TakeCommand(_) => TakeKeepsInv(s, step, capacity);
    case WakeWithCommand(_) => TakeKeepsInv(s, step, capacity);
    case NoCommand => NoCommandKeepsInv(s, step, capacity);
    case WakeDisconnected => NoCommandKeepsInv(s, step, capacity);
    case FlushSome(_) => FlushSomeKeepsInv(s, step, capacity);
    case FlushFails(_) => FlushFailsKeepsInv(s, step, capacity);
    case FlushDone(_) => FlushDoneKeepsInv(s, step, capacity);
    case Drain(_) => DrainKeepsInv(s, step, capacity);
    case WakeUp(_) => WakeKeepsInv(s, step, capacity);
    case Receive(_, _) => ReceiveKeepsInv(s, step, capacity);
    case SkipReceive => ReceiveKeepsInv(s, step, capacity);
    case CheckDone => CheckKeepsInv(s, step, capacity);
    case DiscardCommand => DiscardKeepsInv(s, step, capacity);
    case ChannelEmpty => EmptyKeepsInv(s, step, capacity);
    case BuffersReturned => ReturnedKeepsInv(s, step, capacity);
  }

  lemma {:induction false} RunKeepsInv(s: State, steps: seq<Step>, capacity: nat)
    requires Inv(s) && IsRun(s, steps, capacity)
    ensures Inv(Exec(s, steps, capacity))
    decreases |steps|
  {
    hide Inv;
    if steps != [] {
      StepKeepsInv(s, steps[0], capacity);
      RunKeepsInv(Next(s, steps[0], capacity), steps[1..], capacity);
    }
  }

  lemma InitInv()
    ensures Inv(Init())
  {
  }

  // ---------------------------------------------------------------- main results

  /** In every run the counter is exactly the number of live leases. */
  lemma CounterIsLeases(steps: seq<Step>, capacity: nat)
    requires IsRun(Init(), steps, capacity)
    ensures var s := Exec(Init(), steps, capacity);
      ChannelOk(s.ch) && s.le.outstanding == |s.le.outside| + |Packets(Queue(s.ch))|
  {
    InitInv();
    RunKeepsInv(Init(), steps, capacity);
  }

  /** The actor ends only when no application-held buffer and no queued command is left. */
  lemma EndsWithoutBuffers(steps: seq<Step>, capacity: nat)
    requires IsRun(Init(), steps, capacity) && Exec(Init(), steps, capacity).me.pc.Done?
    ensures var s := Exec(Init(), steps, capacity);
      ChannelOk(s.ch) && s.le.outside == multiset{} && s.le.outstanding == 0 && Queue(s.ch) == []
  {
    InitInv();
    RunKeepsInv(Init(), steps, capacity);
  }

  /** Packets reach the socket in command order, whatever happens. */
  lemma PacketsInCommandOrder(steps: seq<Step>, capacity: nat)
    requires IsRun(Init(), steps, capacity)
    ensures var s := Exec(Init(), steps, capacity);
      s.ch.handled <= |s.ch.log| && s.me.accepted <= Packets(s.ch.log[..s.ch.handled])
  {
    InitInv();
    RunKeepsInv(Init(), steps, capacity);
  }

  /** When the actor finishes without an error, the socket accepted exactly the packets of
      all commands sent ahead of the first shutdown. */
  lemma OkMeansAllAccepted(steps: seq<Step>, capacity: nat)
    requires IsRun(Init(), steps, capacity) && Exec(Init(), steps, capacity).me.pc == Done(Ok)
    ensures var s := Exec(Init(), steps, capacity); s.me.accepted == Packets(BeforeShutdown(s.ch.log))
  {
    InitInv();
    RunKeepsInv(Init(), steps, capacity);
  }
}
