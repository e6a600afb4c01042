/** Why the home policy is the only safe one: whenever a policy lets a member send a
    frame of another member's slice, a short run that follows the policy makes a
    completion drain push past the capacity of a free list. */
module FrameOverflow {
  import opened Bits
  import opened Umem
  import opened FrameReclaim
  import opened FrameProtocol
  import opened FrameInvariant
  import opened FrameRuns
  import opened FrameBounds
  import opened FrameMigration

  // ---------------------------------------------------------------- composing runs

  lemma {:induction false} RunAppend(l: Layout, s: State, a: seq<Step>, b: seq<Step>, allowed: Policy)
    requires IsPow2(l.frameSize) && IsRun(l, s, a) && Obeys(l, s, a, allowed)
    requires IsRun(l, Exec(l, s, a), b) && Obeys(l, Exec(l, s, a), b, allowed)
    ensures IsRun(l, s, a + b) && Obeys(l, s, a + b, allowed) && Exec(l, s, a + b) == Exec(l, Exec(l, s, a), b)
    decreases |a|
  {
    hide Enabled, Next;
    if a == [] {
      assert a + b == b;
    } else {
      assert (a + b)[0] == a[0] && (a + b)[1..] == a[1..] + b;
      RunAppend(l, Next(l, s, a[0]), a[1..], b, allowed);
    }
  }

  /** A run that follows the policy and ends in `t`. */
  ghost predicate Reaches(l: Layout, s: State, steps: seq<Step>, allowed: Policy, t: State)
    requires IsPow2(l.frameSize)
  {
    IsRun(l, s, steps) && Obeys(l, s, steps, allowed) && Exec(l, s, steps) == t
  }

  lemma ReachThen(l: Layout, s: State, a: seq<Step>, allowed: Policy, t: State, b: seq<Step>, u: State)
    requires IsPow2(l.frameSize) && Reaches(l, s, a, allowed, t) && Reaches(l, t, b, allowed, u)
    ensures Reaches(l, s, a + b, allowed, u)
  {
    hide Enabled, Next, StepObeys;
    RunAppend(l, s, a, b, allowed);
  }

  lemma ReachCons(l: Layout, s: State, step: Step, allowed: Policy, steps: seq<Step>, u: State)
    requires IsPow2(l.frameSize) && Enabled(l, s, step) && StepObeys(s, step, allowed)
    requires Reaches(l, Next(l, s, step), steps, allowed, u)
    ensures Reaches(l, s, [step] + steps, allowed, u)
  {
    hide Enabled, Next, StepObeys;
    assert ([step] + steps)[1..] == steps;
  }

  // ---------------------------------------------------------------- a whole FILL ring received

  /** A receive side whose frames all wait in the FILL ring. */
  function Waiting(fill: seq<nat>): RxSide { RxSide(fill, [], [], Pool([], [])) }

  lemma UpdateTwice(s: State, m: nat, t: State, rx: RxSide)
    requires m < |s.members| && |t.members| == |s.members| && t.members[m].tx == s.members[m].tx
    requires forall i :: 0 <= i < |s.members| && i != m ==> t.members[i] == s.members[i]
    ensures WithRx(t, m, rx).members == WithRx(s, m, rx).members
  {
  }

  /** With an empty pool there is nothing to put on the FILL ring, whatever its room. */
  lemma NothingToRefill(l: Layout, rx: RxSide)
    requires rx.pool == Pool([], [])
    ensures Refilled(l, rx) == rx
  {
    var scratch := rx.pool.free + rx.pool.remote;
    assert scratch == [] && rx.fill + scratch[..0] == rx.fill;
  }

  /** A minimal UDP datagram with its Ethernet header. */
  const PACKET_LEN: nat := 42

  /** A frame holds the headroom and a minimal packet. */
  predicate HoldsPacket(l: Layout) { l.headroom + PACKET_LEN <= l.frameSize }

  /** A packet in a frame, behind the headroom. */
  function PacketIn(l: Layout, frame: nat): XdpDesc { XdpDesc(frame + l.headroom, PACKET_LEN) }

  lemma PacketFits(l: Layout, frame: nat)
    requires IsPow2(l.frameSize) && FrameBase(frame, l.frameSize) == frame && HoldsPacket(l)
    ensures FrameBase(PacketIn(l, frame).addr, l.frameSize) == frame
    ensures Deliverable(l, PacketIn(l, frame)) && Submittable(l, PacketIn(l, frame))
  {
    hide FrameBase;
    FrameBaseOfOffset(frame, l.headroom, l.frameSize);
  }

  lemma RecvOne(l: Layout, m: nat, frame: nat, fill: seq<nat>, live: seq<Buffer>)
    requires IsPow2(l.frameSize) && FrameBase(frame, l.frameSize) == frame < l.umemLen && HoldsPacket(l)
    ensures var rx := RxSide(fill, [], [PacketIn(l, frame)], Pool([], []));
      AfterRecv(l, m, rx, 1, [true], 0, live) == (Waiting(fill), live + [Buffer(frame, m, true)])
  {
    hide FrameBase;
    PacketFits(l, frame);
    var rx := RxSide(fill, [], [PacketIn(l, frame)], Pool([], []));
    NothingToRefill(l, rx);
    NothingToRefill(l, Waiting(fill));
    var descs := rx.ring[..1];
    assert descs == rx.ring && descs[1..] == [] && [true][1..] == [];
    assert !CrossesFrame(l, descs[0]);
    assert Receive(l, m, descs, [true], rx.pool, live) == Received(rx.pool, live + [Buffer(frame, m, true)], true);
    assert TookFill(Waiting(fill), 0) == Waiting(fill) by { assert fill[0..] == fill && [] + fill[..0] == []; }
  }

  /** The kernel fills the first frame of the FILL ring and the packet is delivered. */
  lemma DeliverOne(l: Layout, s: State, m: nat, allowed: Policy) returns (steps: seq<Step>)
    requires IsPow2(l.frameSize) && HoldsPacket(l) && m < |s.members|
    requires var fill := s.members[m].rx.fill;
      fill != [] && s.members[m].rx == Waiting(fill) && FrameBase(fill[0], l.frameSize) == fill[0] < l.umemLen
    ensures var fill := s.members[m].rx.fill;
      Reaches(l, s, steps, allowed, WithRx(s, m, Waiting(fill[1..])).(live := s.live + [Buffer(fill[0], m, true)]))
  {
    hide FrameBase, AfterRecv, Enabled, Next, Reaches;
    var fill := s.members[m].rx.fill;
    var desc := PacketIn(l, fill[0]);
    PacketFits(l, fill[0]);
    var take, arrive, recv := KernelTakesFill(m), KernelReceives(m, 0, desc), Recv(m, 1, [true], 0);
    var a := WithRx(s, m, RxSide(fill[1..], [fill[0]], [], Pool([], [])));
    var b := WithRx(s, m, RxSide(fill[1..], [], [desc], Pool([], [])));
    var c := WithRx(s, m, Waiting(fill[1..])).(live := s.live + [Buffer(fill[0], m, true)]);
    TakeAndArrive(l, s, m, desc);
    RecvStep(l, b, m, fill[0], fill[1..]);
    UpdateTwice(s, m, b, Waiting(fill[1..]));
    steps := ThreeSteps(l, s, take, a, arrive, b, recv, c, allowed);
  }

  /** The kernel takes the first FILL entry and puts a packet into its frame. */
  lemma TakeAndArrive(l: Layout, s: State, m: nat, desc: XdpDesc)
    requires IsPow2(l.frameSize) && m < |s.members|
    requires var fill := s.members[m].rx.fill;
      fill != [] && s.members[m].rx == Waiting(fill) && FrameBase(desc.addr, l.frameSize) == fill[0]
    ensures var fill := s.members[m].rx.fill;
      var a := WithRx(s, m, RxSide(fill[1..], [fill[0]], [], Pool([], [])));
      && Enabled(l, s, KernelTakesFill(m)) && Next(l, s, KernelTakesFill(m)) == a
      && Enabled(l, a, KernelReceives(m, 0, desc))
      && Next(l, a, KernelReceives(m, 0, desc)) == WithRx(s, m, RxSide(fill[1..], [], [desc], Pool([], [])))
  {
    hide FrameBase;
    var fill := s.members[m].rx.fill;
    assert [] + [fill[0]] == [fill[0]] && [] + [desc] == [desc] && Without([fill[0]], 0) == [];
  }

  lemma RecvStep(l: Layout, b: State, m: nat, frame: nat, fill: seq<nat>)
    requires IsPow2(l.frameSize) && HoldsPacket(l) && FrameBase(frame, l.frameSize) == frame < l.umemLen
    requires m < |b.members| && b.members[m].rx == RxSide(fill, [], [PacketIn(l, frame)], Pool([], []))
    ensures var step := Recv(m, 1, [true], 0);
      && Enabled(l, b, step)
      && Next(l, b, step) == WithRx(b, m, Waiting(fill)).(live := b.live + [Buffer(frame, m, true)])
  {
    hide FrameBase, AfterRecv, Deliverable, Submittable;
    PacketFits(l, frame);
    RecvOne(l, m, frame, fill, b.live);
  }

  lemma ThreeSteps(l: Layout, s: State, x: Step, a: State, y: Step, b: State, z: Step, c: State, allowed: Policy)
    returns (steps: seq<Step>)
    requires IsPow2(l.frameSize) && !x.SendBuffer? && !y.SendBuffer? && !z.SendBuffer?
    requires Enabled(l, s, x) && Next(l, s, x) == a && Enabled(l, a, y) && Next(l, a, y) == b
    requires Enabled(l, b, z) && Next(l, b, z) == c
    ensures Reaches(l, s, steps, allowed, c)
  {
    hide Enabled, Next;
    assert Reaches(l, c, [], allowed, c);
    ReachCons(l, b, z, allowed, [], c);
    ReachCons(l, a, y, allowed, [z] + [], c);
    ReachCons(l, s, x, allowed, [y] + ([z] + []), c);
    steps := [x] + ([y] + ([z] + []));
  }

  /** All frames of the FILL ring are delivered, one receive call each. */
  lemma {:induction false} DeliverAll(l: Layout, s: State, m: nat, allowed: Policy) returns (steps: seq<Step>)
    requires IsPow2(l.frameSize) && HoldsPacket(l)
    requires m < |s.members| && s.members[m].rx == Waiting(s.members[m].rx.fill)
    requires forall k :: 0 <= k < |s.members[m].rx.fill| ==>
      FrameBase(s.members[m].rx.fill[k], l.frameSize) == s.members[m].rx.fill[k] < l.umemLen
    ensures Reaches(l, s, steps, allowed,
                    WithRx(s, m, Waiting([])).(live := s.live + RxBuffers(s.members[m].rx.fill, m)))
    decreases |s.members[m].rx.fill|
  {
    hide Reaches, FrameBase;
    var fill := s.members[m].rx.fill;
    if fill == [] {
      steps := [];
      assert WithRx(s, m, Waiting([])).(live := s.live + RxBuffers(fill, m)) == s;
      ReachNothing(l, s, allowed);
    } else {
      var first := DeliverOne(l, s, m, allowed);
      var t := WithRx(s, m, Waiting(fill[1..])).(live := s.live + [Buffer(fill[0], m, true)]);
      var rest := DeliverAll(l, t, m, allowed);
      assert t.live + RxBuffers(fill[1..], m) == s.live + RxBuffers(fill, m);
      UpdateTwice(s, m, t, Waiting([]));
      steps := first + rest;
      ReachThen(l, s, first, allowed, t, rest, WithRx(s, m, Waiting([])).(live := s.live + RxBuffers(fill, m)));
    }
  }

  lemma ReachNothing(l: Layout, s: State, allowed: Policy)
    requires IsPow2(l.frameSize)
    ensures Reaches(l, s, [], allowed, s)
  {
  }

  /** The owner drops its buffers in order: the frames are in its free list. */
  lemma {:induction false} DropAll(l: Layout, s: State, m: nat, kept: seq<Buffer>, frames: seq<nat>, allowed: Policy)
    returns (steps: seq<Step>)
    requires IsPow2(l.frameSize) && m < |s.members| && s.live == kept + RxBuffers(frames, m)
    requires s.members[m].rx.pool.remote == []
    ensures var rx := s.members[m].rx;
      Reaches(l, s, steps, allowed, WithRx(s, m, rx.(pool := Pool(rx.pool.free + frames, []))).(live := kept))
    decreases |frames|
  {
    hide Reaches, Enabled, Next, StepObeys;
    var rx := s.members[m].rx;
    var done := WithRx(s, m, rx.(pool := Pool(rx.pool.free + frames, []))).(live := kept);
    if frames == [] {
      steps := [];
      assert rx.pool.free + frames == rx.pool.free && kept + RxBuffers(frames, m) == kept;
      assert done == s;
      ReachNothing(l, s, allowed);
    } else {
      var step := DropOnOwner(|kept|);
      DropFirst(l, s, m, kept, frames);
      DropObeys(s, |kept|, allowed);
      var t := Next(l, s, step);
      var rest := DropAll(l, t, m, kept, frames[1..], allowed);
      assert rx.pool.free + [frames[0]] + frames[1..] == rx.pool.free + frames;
      UpdateTwice(s, m, t, rx.(pool := Pool(rx.pool.free + frames, [])));
      steps := [step] + rest;
      ReachCons(l, s, step, allowed, rest, done);
    }
  }

  lemma DropObeys(s: State, i: nat, allowed: Policy)
    ensures StepObeys(s, DropOnOwner(i), allowed)
  {
  }

  lemma DropFirst(l: Layout, s: State, m: nat, kept: seq<Buffer>, frames: seq<nat>)
    requires IsPow2(l.frameSize) && m < |s.members| && frames != [] && s.live == kept + RxBuffers(frames, m)
    ensures var step := DropOnOwner(|kept|); var rx := s.members[m].rx;
      && Enabled(l, s, step)
      && Next(l, s, step)
         == WithRx(s, m, rx.(pool := rx.pool.PushOwner(frames[0]))).(live := kept + RxBuffers(frames[1..], m))
  {
    assert s.live[|kept|] == Buffer(frames[0], m, true);
    assert Without(s.live, |kept|) == kept + RxBuffers(frames[1..], m);
  }

  // ---------------------------------------------------------------- the foreign completion

  /** Member `m` has sent the `i`-th live buffer and the kernel has completed it. */
  function Completed(s: State, m: nat, i: nat, addr: nat): State
    requires m < |s.members| && i < |s.live|
  {
    var tx := s.members[m].tx;
    WithTx(s, m, tx.(completions := [addr], inFlight := tx.inFlight + 1)).(live := Without(s.live, i))
  }

  /** Member `m` sends a live buffer and the kernel completes it. */
  lemma SendAndComplete(l: Layout, s: State, m: nat, i: nat, allowed: Policy) returns (steps: seq<Step>)
    requires IsPow2(l.frameSize) && HoldsPacket(l) && m < |s.members| && i < |s.live| && allowed(m, s.live[i].frame)
    requires FrameBase(s.live[i].frame, l.frameSize) == s.live[i].frame
    requires s.members[m].tx.ring == [] && s.members[m].tx.completions == []
    ensures Reaches(l, s, steps, allowed, Completed(s, m, i, PacketIn(l, s.live[i].frame).addr))
  {
    hide Reaches, FrameBase, IsPow2;
    var f, tx := s.live[i].frame, s.members[m].tx;
    var desc := PacketIn(l, f);
    PacketFits(l, f);
    var t := Next(l, s, SendBuffer(m, i, desc));
    assert [] + [desc] == [desc];
    assert t == WithTx(s, m, tx.(ring := [desc], inFlight := tx.inFlight + 1)).(live := Without(s.live, i));
    var complete := KernelCompletes(m, 0, desc.addr);
    var u := Next(l, t, complete);
    assert Without([desc], 0) == [] && [] + [desc.addr] == [desc.addr];
    assert u == Completed(s, m, i, desc.addr);
    ReachNothing(l, u, allowed);
    ReachCons(l, t, complete, allowed, [], u);
    ReachCons(l, s, SendBuffer(m, i, desc), allowed, [complete] + [], u);
    steps := [SendBuffer(m, i, desc)] + ([complete] + []);
  }

  /** A list that is full cannot take the completion of one more frame of its class. */
  lemma FullListOverflows(g: Geometry, l: Layout, member: Member, f: nat, addr: nat)
    requires IsPow2(l.frameSize) && member.tx.completions == [addr] && FrameBase(addr, l.frameSize) == f
    requires |PoolOf(member, l.reclaim.IsRx(f)).free| == ClassSize(g, l.reclaim.IsRx(f))
    ensures !DrainFits(g, l, member, 1)
  {
    var b := Bases(member.tx.completions[..1], l.frameSize);
    assert b == [f] && b[1..] == [];
    var rx, tx := member.rx.pool.free, member.tx.pool.free;
    if l.reclaim.IsRx(f) {
      assert ReclaimAll(l.reclaim, l.umemLen, b[1..], rx + [f], tx) == Reclaimed(rx + [f], tx, true);
    } else {
      assert ReclaimAll(l.reclaim, l.umemLen, b[1..], rx, tx + [f]) == Reclaimed(rx, tx + [f], true);
    }
  }

  /** The owner allocates all its TX frames. */
  lemma AllocateAll(l: Layout, s: State, h: nat)
    requires IsPow2(l.frameSize) && h < |s.members| && s.live == []
    ensures var pool := s.members[h].tx.pool; var step := Allocate(h, |pool.free|);
      Enabled(l, s, step)
      && Next(l, s, step)
         == WithTx(s, h, s.members[h].tx.(pool := Pool([], pool.remote))).(live := NewBuffers(Reversed(pool.free), h))
  {
    var pool := s.members[h].tx.pool;
    assert pool.free[0..] == pool.free;
    assert pool.PopMany(|pool.free|) == (Pool([], pool.remote), Reversed(pool.free));
    assert [] + NewBuffers(Reversed(pool.free), h) == NewBuffers(Reversed(pool.free), h);
  }

  lemma ForeignTxFrame(g: Geometry, l: Layout, m: nat, h: nat, k: nat, allowed: Policy)
    returns (steps: seq<Step>, t: State)
    requires IsOpened(g, l) && IsPow2(l.frameSize) && HoldsPacket(l) && m < g.members
    requires h < g.members && m != h && g.PerRx() <= k < g.perMember
    requires allowed(m, FrameOf(g, h, k))
    ensures Reaches(l, Opened(g), steps, allowed, t) && |t.members| == g.members
    ensures !DrainFits(g, l, t.members[m], 1)
  {
    hide IsOpened, Enabled, Next, FrameBase, DrainFits;
    var s, f := Opened(g), FrameOf(g, h, k);
    var free := s.members[h].tx.pool.free;
    FrameFacts(g, l, h, k);
    AllocateAll(l, s, h);
    var step := Allocate(h, |free|);
    var t0 := Next(l, s, step);
    var i := |free| - 1 - (k - g.PerRx());
    assert free[k - g.PerRx()] == f && t0.live[i].frame == f;
    assert t0.members[m] == OpenedMember(g, m);
    var rest := SendAndComplete(l, t0, m, i, allowed);
    t := Completed(t0, m, i, PacketIn(l, f).addr);
    steps := [step] + rest;
    ReachCons(l, s, step, allowed, rest, t);
    PacketFits(l, f);
    FullListOverflows(g, l, t.members[m], f, PacketIn(l, f).addr);
  }

  lemma OpenedFill(g: Geometry, l: Layout, m: nat)
    requires IsOpened(g, l) && IsPow2(l.frameSize) && m < g.members
    ensures var fill := OpenedMember(g, m).rx.fill;
      |fill| == g.PerRx() >= 1
      && forall k :: 0 <= k < |fill| ==> FrameBase(fill[k], l.frameSize) == fill[k] < l.umemLen
  {
    HalfIsPow2(g.perMember);
    var fill := OpenedMember(g, m).rx.fill;
    forall k | 0 <= k < |fill|
      ensures FrameBase(fill[k], l.frameSize) == fill[k] < l.umemLen
    {
      FrameFacts(g, l, m, k);
    }
  }

  lemma ForeignRxFrame(g: Geometry, l: Layout, m: nat, h: nat, k: nat, allowed: Policy)
    returns (steps: seq<Step>, t: State)
    requires IsOpened(g, l) && IsPow2(l.frameSize) && HoldsPacket(l) && m < g.members
    requires h < g.members && m != h && k < g.PerRx() && k < g.perMember
    requires allowed(m, FrameOf(g, h, k))
    ensures Reaches(l, Opened(g), steps, allowed, t) && |t.members| == g.members
    ensures !DrainFits(g, l, t.members[m], 1)
  {
    hide IsOpened, Reaches, FrameBase, DrainFits;
    var s, f := Opened(g), FrameOf(g, h, k);
    var fillH, fillM := s.members[h].rx.fill, s.members[m].rx.fill;
    FrameFacts(g, l, h, k);
    OpenedFill(g, l, h);
    OpenedFill(g, l, m);
    var a := DeliverAll(l, s, h, allowed);
    assert [] + RxBuffers(fillH, h) == RxBuffers(fillH, h);
    var t0 := WithRx(s, h, Waiting([])).(live := RxBuffers(fillH, h));
    assert t0.live[k].frame == f && t0.members[m] == OpenedMember(g, m);
    var b := SendAndComplete(l, t0, m, k, allowed);
    var t1 := Completed(t0, m, k, PacketIn(l, f).addr);
    ReachThen(l, s, a, allowed, t0, b, t1);
    var c, t2 := FillFreeList(l, t1, m, allowed);
    t := t2;
    ReachThen(l, s, a + b, allowed, t1, c, t);
    steps := a + b + c;
    PacketFits(l, f);
    FullListOverflows(g, l, t.members[m], f, PacketIn(l, f).addr);
  }

  /** A member receives all its frames and drops the buffers: its free list holds them all. */
  lemma FillFreeList(l: Layout, s: State, m: nat, allowed: Policy) returns (steps: seq<Step>, t: State)
    requires IsPow2(l.frameSize) && HoldsPacket(l)
    requires m < |s.members| && s.members[m].rx == Waiting(s.members[m].rx.fill)
    requires forall k :: 0 <= k < |s.members[m].rx.fill| ==>
      FrameBase(s.members[m].rx.fill[k], l.frameSize) == s.members[m].rx.fill[k] < l.umemLen
    ensures Reaches(l, s, steps, allowed, t) && |t.members| == |s.members|
    ensures t.members[m].tx == s.members[m].tx && t.members[m].rx.pool.free == s.members[m].rx.fill
  {
    hide Reaches, FrameBase;
    var fill := s.members[m].rx.fill;
    var c := DeliverAll(l, s, m, allowed);
    var u := WithRx(s, m, Waiting([])).(live := s.live + RxBuffers(fill, m));
    var d := DropAll(l, u, m, s.live, fill, allowed);
    assert [] + fill == fill;
    t := WithRx(u, m, Waiting([]).(pool := Pool(fill, []))).(live := s.live);
    steps := c + d;
    ReachThen(l, s, c, allowed, u, d, t);
  }

  /** A policy is safe in every run if and only if it sends each buffer only through
      the member its frame's slice belongs to. */
  lemma SafePoliciesAreHomePolicies(g: Geometry, l: Layout, allowed: Policy)
    requires IsOpened(g, l) && IsPow2(l.frameSize) && HoldsPacket(l)
    ensures PolicyIsSafe(g, l, allowed) <==> SendsHomeOnly(l, g.members, allowed)
  {
    hide DrainFits;
    if SendsHomeOnly(l, g.members, allowed) {
      HomePolicyIsSafe(g, l, allowed);
    } else {
      var m: nat, f: nat :| m < g.members && f in l.frames && allowed(m, f) && !(f in l.home && l.home[f] == m);
      var h, k := NumberOfFrame(g, f);
      FrameFacts(g, l, h, k);
      var steps, t;
      if k < g.PerRx() {
        steps, t := ForeignRxFrame(g, l, m, h, k, allowed);
      } else {
        steps, t := ForeignTxFrame(g, l, m, h, k, allowed);
      }
      assert !DrainFits(g, l, Exec(l, Opened(g), steps).members[m], 1);
    }
  }

  /** In particular letting any member send any buffer, which the shared layout allows,
      is unsafe as soon as there are two members. */
  lemma FreeMigrationIsUnsafe(g: Geometry, l: Layout)
    requires IsOpened(g, l) && IsPow2(l.frameSize) && HoldsPacket(l) && g.members >= 2
    ensures !PolicyIsSafe(g, l, (_, _) => true)
  {
    hide IsOpened, PolicyIsSafe, CompletionReclaim.IsRx, FrameBase;
    var anyone: Policy := (_, _) => true;
    OpenedHasFrames(g, l);
    FrameFacts(g, l, 0, 0);
    SafePoliciesAreHomePolicies(g, l, anyone);
    SendsForeign(g, l, anyone);
  }

  lemma OpenedHasFrames(g: Geometry, l: Layout)
    requires IsOpened(g, l)
    ensures g.perMember >= 2
  {
  }

  lemma SendsForeign(g: Geometry, l: Layout, anyone: Policy)
    requires g.members >= 2 && FrameOf(g, 0, 0) in l.frames && anyone(1, FrameOf(g, 0, 0))
    requires FrameOf(g, 0, 0) in l.home && l.home[FrameOf(g, 0, 0)] == 0
    ensures !SendsHomeOnly(l, g.members, anyone)
  {
  }
}
