/** Members that share a UMEM may send each other's buffers, and the completion then
    returns the frame to the sender's free list.  The unchecked pushes of the
    completion drain are safe under exactly one sending policy: send every buffer
    through the member whose slice its frame came from. */
module FrameMigration {
  import opened Bits
  import opened Umem
  import opened FrameReclaim
  import opened FrameProtocol
  import opened FrameInvariant
  import opened FrameRuns
  import opened FrameBounds

  /** The policy a program follows: may member `m` send a buffer holding `frame`? */
  type Policy = (nat, nat) -> bool

  ghost predicate Obeys(l: Layout, s: State, steps: seq<Step>, allowed: Policy)
    requires IsPow2(l.frameSize) && IsRun(l, s, steps)
    decreases |steps|
  {
    steps == [] || (StepObeys(s, steps[0], allowed) && Obeys(l, Next(l, s, steps[0]), steps[1..], allowed))
  }

  ghost predicate StepObeys(s: State, step: Step, allowed: Policy)
  {
    step.SendBuffer? ==> step.i < |s.live| && allowed(step.m, s.live[step.i].frame)
  }

  /** Every run that follows the policy keeps every drain within capacity. */
  ghost predicate PolicyIsSafe(g: Geometry, l: Layout, allowed: Policy)
    requires IsPow2(l.frameSize)
  {
    forall steps, i: nat, max | i < g.members && IsRun(l, Opened(g), steps) && Obeys(l, Opened(g), steps, allowed) ::
      DrainFits(g, l, Exec(l, Opened(g), steps).members[i], max)
  }

  ghost predicate SendsHomeOnly(l: Layout, members: nat, allowed: Policy)
  {
    forall m: nat, f | m < members && f in l.frames && allowed(m, f) :: f in l.home && l.home[f] == m
  }

  // ---------------------------------------------------------------- home policy keeps members at home

  predicate BufferAtHome(l: Layout, b: Buffer) { b.frame in l.home && l.home[b.frame] == b.owner }

  ghost predicate FramesAtHome(l: Layout, frames: multiset<nat>, i: nat)
  {
    forall f :: f in frames ==> f in l.home && l.home[f] == i
  }

  ghost predicate AllHome(l: Layout, s: State)
    requires IsPow2(l.frameSize)
  {
    && (forall i :: 0 <= i < |s.members| ==> FramesAtHome(l, Owned(l, s.members[i]), i))
    && (forall k :: 0 <= k < |s.live| ==> BufferAtHome(l, s.live[k]))
  }

  lemma HomeAfter(l: Layout, s: State, m: nat, member: Member, live: seq<Buffer>)
    requires IsPow2(l.frameSize) && AllHome(l, s) && m < |s.members|
    requires FramesAtHome(l, Owned(l, member), m)
    requires forall k :: 0 <= k < |live| ==> BufferAtHome(l, live[k])
    ensures AllHome(l, State(s.members[m := member], live))
  {
    hide Owned, FramesAtHome;
  }

  ghost predicate BuffersAtHome(l: Layout, live: seq<Buffer>)
  {
    forall k :: 0 <= k < |live| ==> BufferAtHome(l, live[k])
  }

  lemma {:induction false} ReceiveHome(l: Layout, m: nat, descs: seq<XdpDesc>, deliver: seq<bool>, pool: Pool,
                                       live: seq<Buffer>)
    requires IsPow2(l.frameSize) && |deliver| == |descs|
    requires forall k :: 0 <= k < |descs| ==> BufferAtHome(l, Buffer(FrameBase(descs[k].addr, l.frameSize), m, true))
    requires BuffersAtHome(l, live)
    ensures BuffersAtHome(l, Receive(l, m, descs, deliver, pool, live).live)
    decreases |descs|
  {
    if descs == [] {
    } else if CrossesFrame(l, descs[0]) {
    } else {
      var base := FrameBase(descs[0].addr, l.frameSize);
      if deliver[0] {
        ReceiveHome(l, m, descs[1..], deliver[1..], pool, live + [Buffer(base, m, true)]);
      } else {
        ReceiveHome(l, m, descs[1..], deliver[1..], pool.PushOwner(base), live);
      }
    }
  }

  lemma HomeParts(l: Layout, s: State, m: nat)
    requires IsPow2(l.frameSize) && AllHome(l, s) && m < |s.members|
    ensures FramesAtHome(l, RxOwned(l, s.members[m].rx), m) && FramesAtHome(l, TxOwned(l, s.members[m].tx), m)
  {
    hide RxOwned, TxOwned;
    assert FramesAtHome(l, Owned(l, s.members[m]), m);
    forall f | f in RxOwned(l, s.members[m].rx)
      ensures f in l.home && l.home[f] == m
    {
      assert f in Owned(l, s.members[m]);
    }
    forall f | f in TxOwned(l, s.members[m].tx)
      ensures f in l.home && l.home[f] == m
    {
      assert f in Owned(l, s.members[m]);
    }
  }

  lemma RxHomeAfter(l: Layout, s: State, m: nat, rx: RxSide, live: seq<Buffer>)
    requires IsPow2(l.frameSize) && AllHome(l, s) && m < |s.members|
    requires FramesAtHome(l, RxOwned(l, rx), m) && BuffersAtHome(l, live)
    ensures AllHome(l, WithRx(s, m, rx).(live := live))
  {
    hide RxOwned, TxOwned;
    HomeParts(l, s, m);
    HomeAfter(l, s, m, s.members[m].(rx := rx), live);
  }

  lemma TxHomeAfter(l: Layout, s: State, m: nat, tx: TxSide, live: seq<Buffer>)
    requires IsPow2(l.frameSize) && AllHome(l, s) && m < |s.members|
    requires FramesAtHome(l, TxOwned(l, tx), m) && BuffersAtHome(l, live)
    ensures AllHome(l, WithTx(s, m, tx).(live := live))
  {
    hide RxOwned, TxOwned;
    HomeParts(l, s, m);
    HomeAfter(l, s, m, s.members[m].(tx := tx), live);
  }

  lemma RxStepHome(l: Layout, s: State, step: Step)
    requires IsPow2(l.frameSize) && AllHome(l, s) && Enabled(l, s, step)
    requires (step.KernelTakesFill? || step.KernelReceives? || step.Replenish?)
    ensures AllHome(l, Next(l, s, step))
  {
    hide RxOwned, TxOwned;
    var m := step.m;
    var rx := s.members[m].rx;
    HomeParts(l, s, m);
    match step
    case KernelTakesFill(_) =>
      TakeFillKeepsOwned(l, rx);
      RxHomeAfter(l, s, m, rx.(fill := rx.fill[1..], dma := rx.dma + [rx.fill[0]]), s.live);
    case KernelReceives(_, k, desc) =>
      KernelReceivesKeepsOwned(l, rx, k, desc);
      RxHomeAfter(l, s, m, rx.(dma := Without(rx.dma, k), ring := rx.ring + [desc]), s.live);
    case Replenish(_) =>
      ReplenishKeepsOwned(l, rx, Room(l, rx));
      RxHomeAfter(l, s, m, Refilled(l, rx), s.live);
  }

  lemma RecvHome(l: Layout, s: State, step: Step)
    requires Inv(l, s) && AllHome(l, s) && Enabled(l, s, step) && step.Recv?
    ensures AllHome(l, Next(l, s, step))
  {
    hide RxOwned, TxOwned, EachInOnePlace, MemberOk;
    var m, count := step.m, step.count;
    var rx0 := s.members[m].rx;
    HomeParts(l, s, m);
    var rx := Refilled(l, rx0);
    ReplenishKeepsOwned(l, rx0, Room(l, rx0));
    RxHeldIsActive(l, s, m);
    ReceiveEffect(l, |s.members|, m, rx, count, step.deliver, s.live);
    var descs := rx.ring[..count];
    forall k | 0 <= k < |descs|
      ensures BufferAtHome(l, Buffer(FrameBase(descs[k].addr, l.frameSize), m, true))
    {
      OnRingIsHeld(l, rx, k);
    }
    ReceiveHome(l, m, descs, step.deliver, rx.pool, s.live);
    var r := Receive(l, m, descs, step.deliver, rx.pool, s.live);
    var rx1 := rx.(ring := rx.ring[count..], pool := r.pool);
    var rx2 := TookFill(rx1, step.meanwhile);
    TookFillKeepsOwned(l, rx1, step.meanwhile);
    ReplenishKeepsOwned(l, rx2, Room(l, rx2));
    RxHomeAfter(l, s, m, if r.ok && count > 0 then Refilled(l, rx2) else rx2, r.live);
  }

  lemma DropHome(l: Layout, s: State, i: nat, onOwner: bool)
    requires IsPow2(l.frameSize) && AllHome(l, s) && i < |s.live| && s.live[i].owner < |s.members|
    ensures AllHome(l, Dropped(s, i, onOwner))
  {
    hide RxOwned, TxOwned;
    var b := s.live[i];
    assert BufferAtHome(l, b);
    HomeParts(l, s, b.owner);
    var member := s.members[b.owner];
    if b.fromRx {
      RxPoolGains(l, member.rx, b.frame, onOwner);
      RxHomeAfter(l, s, b.owner, member.rx.(pool := Returned(member.rx.pool, b.frame, onOwner)), Without(s.live, i));
    } else {
      TxPoolGains(l, member.tx, b.frame, onOwner);
      TxHomeAfter(l, s, b.owner, member.tx.(pool := Returned(member.tx.pool, b.frame, onOwner)), Without(s.live, i));
    }
  }

  lemma TakenAtHome(l: Layout, m: nat, tx: TxSide, max: nat)
    requires IsPow2(l.frameSize) && FramesAtHome(l, TxOwned(l, tx), m)
    ensures var (pool, taken) := tx.pool.PopMany(max);
      FramesAtHome(l, TxOwned(l, tx.(pool := pool)), m) && BuffersAtHome(l, NewBuffers(taken, m))
  {
    hide TxOwned;
    TxTakes(l, tx, max);
    var (pool, taken) := tx.pool.PopMany(max);
    forall k | 0 <= k < |taken|
      ensures BufferAtHome(l, Buffer(taken[k], m, false))
    {
      assert taken[k] in multiset(taken);
      assert taken[k] in TxOwned(l, tx);
    }
  }

  lemma AllocateHome(l: Layout, s: State, step: Step)
    requires IsPow2(l.frameSize) && AllHome(l, s) && Enabled(l, s, step) && step.Allocate?
    ensures AllHome(l, Next(l, s, step))
  {
    hide RxOwned, TxOwned;
    var tx := s.members[step.m].tx;
    HomeParts(l, s, step.m);
    TakenAtHome(l, step.m, tx, step.max);
    var (pool, taken) := tx.pool.PopMany(step.max);
    TxHomeAfter(l, s, step.m, tx.(pool := pool), s.live + NewBuffers(taken, step.m));
  }

  lemma SendBufferHome(l: Layout, s: State, step: Step)
    requires IsPow2(l.frameSize) && AllHome(l, s) && Enabled(l, s, step) && step.SendBuffer?
    requires s.live[step.i].frame in l.home && l.home[s.live[step.i].frame] == step.m
    ensures AllHome(l, Next(l, s, step))
  {
    hide RxOwned, TxOwned;
    var tx := s.members[step.m].tx;
    HomeParts(l, s, step.m);
    TxSubmits(l, tx, [step.desc]);
    assert DescBases(l, [step.desc]) == [s.live[step.i].frame];
    TxHomeAfter(l, s, step.m, tx.(ring := tx.ring + [step.desc], inFlight := tx.inFlight + 1), Without(s.live, step.i));
  }

  lemma SendEndpointHome(l: Layout, s: State, step: Step)
    requires Inv(l, s) && AllHome(l, s) && Enabled(l, s, step) && step.SendEndpoint?
    ensures AllHome(l, Next(l, s, step))
  {
    hide RxOwned, TxOwned, EachInOnePlace, MemberOk;
    var tx := s.members[step.m].tx;
    HomeParts(l, s, step.m);
    PoolIsAligned(l, s, step.m);
    TxSendsOwn(l, tx, step.max, step.offset, step.lens);
    var (pool, taken) := tx.pool.PopMany(step.max);
    var tx' := tx.(pool := pool, ring := tx.ring + EndpointDescs(taken, step.offset, step.lens),
                   inFlight := tx.inFlight + |taken|);
    TxHomeAfter(l, s, step.m, tx', s.live);
  }

  lemma DrainedPoolKeepsOwned(l: Layout, tx: TxSide)
    requires IsPow2(l.frameSize)
    ensures TxOwned(l, tx.(pool := tx.pool.Drained())) == TxOwned(l, tx)
  {
    hide FrameBase;
    assert tx.pool.Drained().Frames() == tx.pool.Frames();
  }

  lemma EndpointFailsHome(l: Layout, s: State, step: Step)
    requires IsPow2(l.frameSize) && AllHome(l, s) && Enabled(l, s, step) && step.EndpointFails?
    ensures AllHome(l, Next(l, s, step))
  {
    hide RxOwned, TxOwned;
    var tx := s.members[step.m].tx;
    HomeParts(l, s, step.m);
    DrainedPoolKeepsOwned(l, tx);
    TxHomeAfter(l, s, step.m, tx.(pool := if |tx.pool.free| < step.max then tx.pool.Drained() else tx.pool), s.live);
  }

  lemma CompletesHome(l: Layout, s: State, step: Step)
    requires IsPow2(l.frameSize) && AllHome(l, s) && Enabled(l, s, step) && step.KernelCompletes?
    ensures AllHome(l, Next(l, s, step))
  {
    hide RxOwned, TxOwned;
    var tx := s.members[step.m].tx;
    HomeParts(l, s, step.m);
    CompleteKeepsOwned(l, tx, step.k, step.addr);
    TxHomeAfter(l, s, step.m, tx.(ring := Without(tx.ring, step.k), completions := tx.completions + [step.addr]),
                s.live);
  }

  lemma DrainHome(l: Layout, s: State, step: Step)
    requires Inv(l, s) && AllHome(l, s) && Enabled(l, s, step) && step.DrainCompletions?
    ensures AllHome(l, Next(l, s, step))
  {
    hide RxOwned, TxOwned, Owned, EachInOnePlace;
    assert MemberOk(l, s.members[step.m]) && FramesAtHome(l, Owned(l, s.members[step.m]), step.m);
    TxHeldIsActive(l, s, step.m);
    DrainKeepsOwned(l, s.members[step.m], step.max);
    HomeAfter(l, s, step.m, Drained(l, s.members[step.m], step.max), s.live);
  }

  lemma StepKeepsHome(l: Layout, s: State, step: Step, allowed: Policy)
    requires Inv(l, s) && AllHome(l, s) && Enabled(l, s, step)
    requires SendsHomeOnly(l, |s.members|, allowed) && StepObeys(s, step, allowed)
    ensures AllHome(l, Next(l, s, step))
  {
    hide AllHome, EachInOnePlace, MemberOk;
    match step
    case KernelTakesFill(_) => RxStepHome(l, s, step);
    case KernelReceives(_, _, _) => RxStepHome(l, s, step);
    case Replenish(_) => RxStepHome(l, s, step);
    case Recv(_, _, _, _) => RecvHome(l, s, step);
    case DropOnOwner(i) => DropHome(l, s, i, true);
    case DropOnOtherThread(i) => DropHome(l, s, i, false);
    case Allocate(_, _) => AllocateHome(l, s, step);
    case SendBuffer(_, i, _) => LiveIsActive(l, s, i); SendBufferHome(l, s, step);
    case SendEndpoint(_, _, _, _) => SendEndpointHome(l, s, step);
    case EndpointFails(_, _) => EndpointFailsHome(l, s, step);
    case KernelCompletes(_, _, _) => CompletesHome(l, s, step);
    case DrainCompletions(_, _) => DrainHome(l, s, step);
  }

  lemma {:induction false} RunKeepsHome(l: Layout, s: State, steps: seq<Step>, allowed: Policy)
    requires Inv(l, s) && IsPow2(l.frameSize) && AllHome(l, s) && IsRun(l, s, steps)
    requires SendsHomeOnly(l, |s.members|, allowed) && Obeys(l, s, steps, allowed)
    ensures Inv(l, Exec(l, s, steps)) && AllHome(l, Exec(l, s, steps))
    decreases |steps|
  {
    hide Inv, AllHome, SendsHomeOnly, StepObeys;
    if steps != [] {
      StepKeepsInv(l, s, steps[0]);
      StepKeepsHome(l, s, steps[0], allowed);
      RunKeepsHome(l, Next(l, s, steps[0]), steps[1..], allowed);
    }
  }

  lemma SliceAtHome(g: Geometry, l: Layout, i: nat)
    requires IsOpened(g, l) && i < g.members
    ensures FramesAtHome(l, multiset(Slice(g, SliceStart(g, i), SliceStart(g, i) + g.perMember)), i)
  {
    hide IsOpened;
    var slice := Slice(g, SliceStart(g, i), SliceStart(g, i) + g.perMember);
    forall f | f in multiset(slice)
      ensures f in l.home && l.home[f] == i
    {
      var k :| 0 <= k < |slice| && slice[k] == f;
      FrameFacts(g, l, i, k);
    }
  }

  lemma OpenedAtHome(g: Geometry, l: Layout)
    requires IsOpened(g, l) && IsPow2(l.frameSize)
    ensures AllHome(l, Opened(g))
  {
    hide IsOpened, Owned, FramesAtHome, Slice;
    forall i | 0 <= i < g.members
      ensures FramesAtHome(l, Owned(l, OpenedMember(g, i)), i)
    {
      MemberHoldsSlice(g, l, i);
      SliceAtHome(g, l, i);
    }
  }

  /** Sending every buffer through its home member keeps every drain within capacity. */
  lemma HomePolicyIsSafe(g: Geometry, l: Layout, allowed: Policy)
    requires IsOpened(g, l) && IsPow2(l.frameSize) && SendsHomeOnly(l, g.members, allowed)
    ensures PolicyIsSafe(g, l, allowed)
  {
    hide Inv, IsOpened, DrainFits, Owned, SendsHomeOnly;
    OpenedInv(g, l);
    OpenedAtHome(g, l);
    forall steps, i: nat, max | i < g.members && IsRun(l, Opened(g), steps) && Obeys(l, Opened(g), steps, allowed)
      ensures DrainFits(g, l, Exec(l, Opened(g), steps).members[i], max)
    {
      RunKeepsHome(l, Opened(g), steps, allowed);
      var s := Exec(l, Opened(g), steps);
      assert FramesAtHome(l, Owned(l, s.members[i]), i);
      HomeDrainFits(g, l, s, i, max);
    }
  }
}
