/** The counting arguments behind the unchecked pushes: a free list or a remote
    queue holds distinct frames of one class, so it cannot outgrow the number of
    such frames. */
module FrameBounds {
  import opened Bits
  import opened Wrappers
  import opened Umem
  import opened FrameReclaim
  import opened FrameProtocol
  import opened FrameInvariant
  import opened FrameRuns

  // ---------------------------------------------------------------- pigeonhole

  /** Distinct elements of a set are no more than the set. */
  lemma {:induction false} Pigeonhole(p: multiset<nat>, s: set<nat>)
    requires forall f :: f in p ==> f in s && p[f] == 1
    ensures |p| <= |s|
    decreases s
  {
    if s == {} {
      assert p == multiset{};
    } else {
      var x :| x in s;
      var q := p[x := 0];
      assert forall f :: f in q ==> f in s - {x} && q[f] == 1;
      Pigeonhole(q, s - {x});
      assert p == q[x := p[x]];
    }
  }

  lemma {:induction false} HomeFramesCount(g: Geometry, m: nat, lo: nat, hi: nat)
    requires lo <= hi
    ensures |set k | lo <= k < hi :: FrameOf(g, m, k)| <= hi - lo
    decreases hi
  {
    if lo < hi {
      HomeFramesCount(g, m, lo, hi - 1);
      var fewer := set k | lo <= k < hi - 1 :: FrameOf(g, m, k);
      assert (set k | lo <= k < hi :: FrameOf(g, m, k)) == fewer + {FrameOf(g, m, hi - 1)};
    }
  }

  lemma {:induction false} ActiveCount(g: Geometry, n: nat)
    ensures |set i | 0 <= i < n :: g.FrameOffset(i)| <= n
  {
    if n > 0 {
      ActiveCount(g, n - 1);
      var fewer := set i | 0 <= i < n - 1 :: g.FrameOffset(i);
      assert (set i | 0 <= i < n :: g.FrameOffset(i)) == fewer + {g.FrameOffset(n - 1)};
    }
  }

  /** Capacity of a class of frames in one member's slice. */
  function ClassSize(g: Geometry, rx: bool): nat { if rx then g.PerRx() else g.perMember - g.PerRx() }

  lemma HomeFramesSize(g: Geometry, m: nat, rx: bool)
    ensures |HomeFrames(g, m, rx)| <= ClassSize(g, rx)
  {
    HomeFramesCount(g, m, if rx then 0 else g.PerRx(), if rx then g.PerRx() else g.perMember);
  }

  lemma ClassAndHome(g: Geometry, l: Layout, f: nat)
    requires IsOpened(g, l) && f in l.frames
    ensures f in l.home && f in HomeFrames(g, l.home[f], l.reclaim.IsRx(f))
  {
    var m, k := NumberOfFrame(g, f);
    FrameFacts(g, l, m, k);
  }

  // ---------------------------------------------------------------- parts of the total

  lemma OnePlaceOfMember(l: Layout, s: State, i: nat, part: multiset<nat>)
    requires Inv(l, s) && i < |s.members| && part <= Owned(l, s.members[i])
    ensures forall f :: f in part ==> f in l.frames && part[f] == 1
  {
    AllOwnedIncludes(l, s.members, i);
    forall f | f in part
      ensures f in l.frames && part[f] == 1
    {
      hide Owned;
      assert part[f] <= Owned(l, s.members[i])[f] <= AllOwned(l, s.members)[f] <= Total(l, s)[f];
      assert Places(l, s, f) == if f in l.frames then 1 else 0;
    }
  }

  /** A live buffer's frame is in no list. */
  lemma OnePlaceWithLive(l: Layout, s: State, i: nat, part: multiset<nat>, k: nat)
    requires Inv(l, s) && i < |s.members| && part <= Owned(l, s.members[i]) && k < |s.live|
    ensures forall f :: f in part + multiset{s.live[k].frame} ==>
      f in l.frames && (part + multiset{s.live[k].frame})[f] == 1
  {
    AllOwnedIncludes(l, s.members, i);
    var x := s.live[k].frame;
    LiveCounts(s.live, k);
    forall f | f in part + multiset{x}
      ensures f in l.frames && (part + multiset{x})[f] == 1
    {
      hide Owned;
      assert part[f] <= Owned(l, s.members[i])[f] <= AllOwned(l, s.members)[f];
      assert multiset{x}[f] <= multiset(BufferFrames(s.live))[f];
      assert Total(l, s)[f] == AllOwned(l, s.members)[f] + multiset(BufferFrames(s.live))[f];
      assert Places(l, s, f) == if f in l.frames then 1 else 0;
    }
  }

  lemma LiveCounts(live: seq<Buffer>, k: nat)
    requires k < |live|
    ensures multiset{live[k].frame} <= multiset(BufferFrames(live))
  {
    assert BufferFrames(live)[k] in multiset(BufferFrames(live));
  }

  // ---------------------------------------------------------------- free lists

  function PoolOf(member: Member, rx: bool): Pool { if rx then member.rx.pool else member.tx.pool }

  lemma PoolIsPart(l: Layout, member: Member, rx: bool)
    requires IsPow2(l.frameSize)
    ensures PoolOf(member, rx).Frames() <= Owned(l, member)
    ensures multiset(PoolOf(member, rx).remote) <= Owned(l, member)
  {
    assert PoolOf(member, rx).Frames() <= if rx then RxOwned(l, member.rx) else TxOwned(l, member.tx);
  }

  lemma PoolClass(l: Layout, member: Member, rx: bool)
    requires IsPow2(l.frameSize) && MemberOk(l, member)
    ensures forall f :: f in PoolOf(member, rx).Frames() ==> l.reclaim.IsRx(f) == rx
  {
  }

  /** A member is at home when every frame it holds belongs to its own slice. */
  ghost predicate AtHome(l: Layout, s: State, i: nat)
    requires IsPow2(l.frameSize) && i < |s.members|
  {
    forall f :: f in Owned(l, s.members[i]) ==> f in l.home && l.home[f] == i
  }

  /** Local and remote lists together hold no more than the slice has of the class. */
  lemma HomeBoundsPool(g: Geometry, l: Layout, s: State, i: nat, rx: bool)
    requires IsOpened(g, l) && Inv(l, s) && i < |s.members| && AtHome(l, s, i)
    ensures |PoolOf(s.members[i], rx).free| + |PoolOf(s.members[i], rx).remote| <= ClassSize(g, rx)
  {
    hide EachInOnePlace, Owned, IsOpened, CompletionReclaim.IsRx;
    var pool := PoolOf(s.members[i], rx);
    PoolIsPart(l, s.members[i], rx);
    PoolClass(l, s.members[i], rx);
    OnePlaceOfMember(l, s, i, pool.Frames());
    forall f | f in pool.Frames()
      ensures f in HomeFrames(g, i, rx)
    {
      ClassAndHome(g, l, f);
    }
    Pigeonhole(pool.Frames(), HomeFrames(g, i, rx));
    HomeFramesSize(g, i, rx);
  }

  /** One socket: every member is trivially at home. */
  lemma LocalIsHome(l: Layout, s: State)
    requires Inv(l, s) && |s.members| == 1
    ensures AtHome(l, s, 0)
  {
    HeldIsActive(l, s, 0);
  }

  /** What a drain of any size would leave in the two free lists fits the capacities
      they were created with, and no completion is rejected. */
  ghost predicate DrainFits(g: Geometry, l: Layout, member: Member, max: nat)
    requires IsPow2(l.frameSize)
  {
    var done := DrainResult(l, member, max);
    done.ok && |done.rxFree| <= ClassSize(g, true) && |done.txFree| <= ClassSize(g, false)
  }

  lemma DrainStaysHome(l: Layout, s: State, i: nat, max: nat)
    requires IsPow2(l.frameSize) && Inv(l, s) && i < |s.members| && AtHome(l, s, i)
    ensures DrainResult(l, s.members[i], max).ok
    ensures var s' := s.(members := s.members[i := Drained(l, s.members[i], max)]); Inv(l, s') && AtHome(l, s', i)
  {
    hide Inv, AtHome, DrainResult, Drained, FrameBase, IsPow2, Owned;
    var s' := s.(members := s.members[i := Drained(l, s.members[i], max)]);
    NextDrain(l, s, i, max);
    DrainKeepsInv(l, s, DrainCompletions(i, max));
    DrainEffects(l, s, i, max);
    HomeStays(l, s, s', i);
  }

  lemma NextDrain(l: Layout, s: State, i: nat, max: nat)
    requires IsPow2(l.frameSize) && i < |s.members|
    ensures Enabled(l, s, DrainCompletions(i, max))
    ensures Next(l, s, DrainCompletions(i, max)) == s.(members := s.members[i := Drained(l, s.members[i], max)])
  {
    hide Drained, IsPow2;
  }

  lemma DrainEffects(l: Layout, s: State, i: nat, max: nat)
    requires Inv(l, s) && IsPow2(l.frameSize) && i < |s.members|
    ensures DrainResult(l, s.members[i], max).ok && Owned(l, Drained(l, s.members[i], max)) == Owned(l, s.members[i])
  {
    hide EachInOnePlace, Owned, DrainResult, Drained;
    assert MemberOk(l, s.members[i]);
    TxHeldIsActive(l, s, i);
    hide MemberOk;
    DrainEffect(l, s.members[i], max);
    DrainKeepsOwned(l, s.members[i], max);
  }

  lemma HomeStays(l: Layout, s: State, t: State, i: nat)
    requires IsPow2(l.frameSize) && i < |s.members| && i < |t.members| && AtHome(l, s, i)
    requires Owned(l, t.members[i]) == Owned(l, s.members[i])
    ensures AtHome(l, t, i)
  {
    hide Owned;
  }

  lemma HomeDrainFits(g: Geometry, l: Layout, s: State, i: nat, max: nat)
    requires IsOpened(g, l) && Inv(l, s) && IsPow2(l.frameSize) && i < |s.members| && AtHome(l, s, i)
    ensures DrainFits(g, l, s.members[i], max)
  {
    hide Inv, AtHome, DrainResult, IsOpened;
    DrainStaysHome(l, s, i, max);
    var s' := s.(members := s.members[i := Drained(l, s.members[i], max)]);
    HomeBoundsPool(g, l, s', i, true);
    HomeBoundsPool(g, l, s', i, false);
  }

  /** One socket, every run, every drain size: the unchecked pushes of the completion
      drain stay within capacity. */
  lemma LocalDrainsFit(g: Geometry, l: Layout, steps: seq<Step>, max: nat)
    requires IsOpened(g, l) && g.members == 1 && IsPow2(l.frameSize) && IsRun(l, Opened(g), steps)
    ensures DrainFits(g, l, Exec(l, Opened(g), steps).members[0], max)
  {
    hide Inv;
    OpenedInv(g, l);
    RunKeepsInv(l, Opened(g), steps);
    var s := Exec(l, Opened(g), steps);
    LocalIsHome(l, s);
    HomeDrainFits(g, l, s, 0, max);
  }

  // ---------------------------------------------------------------- remote queues

  /** Capacity the remote queue of a pool is created with: the class size for a single
      socket, every active frame for members that share a UMEM. */
  function RemoteCapacity(g: Geometry, l: Layout, rx: bool): nat
  {
    if l.reclaim.LocalSplit? then ClassSize(g, rx) else g.TotalFrames()
  }

  lemma RemoteBound(g: Geometry, l: Layout, s: State, k: nat)
    requires IsOpened(g, l) && Inv(l, s) && |s.members| == g.members && k < |s.live|
    requires s.live[k].owner < |s.members|
    ensures |PoolOf(s.members[s.live[k].owner], s.live[k].fromRx).remote| < RemoteCapacity(g, l, s.live[k].fromRx)
  {
    hide EachInOnePlace, Owned, MemberOk, CompletionReclaim.IsRx;
    var b := s.live[k];
    var pool := PoolOf(s.members[b.owner], b.fromRx);
    PoolIsPart(l, s.members[b.owner], b.fromRx);
    OnePlaceWithLive(l, s, b.owner, multiset(pool.remote), k);
    if l.reclaim.LocalSplit? {
      assert MemberOk(l, s.members[b.owner]);
      PoolClass(l, s.members[b.owner], b.fromRx);
      assert BufferOk(l, |s.members|, b);
      forall f | f in multiset(pool.remote) + multiset{b.frame}
        ensures l.reclaim.IsRx(f) == b.fromRx
      {
        if f != b.frame { assert f in pool.Frames(); }
      }
      DistinctOfClass(g, l, pool.remote, b.frame, b.fromRx);
    } else {
      DistinctActive(g, l, pool.remote, b.frame);
    }
  }

  /** Distinct frames of one class of a single socket. */
  lemma DistinctOfClass(g: Geometry, l: Layout, remote: seq<nat>, frame: nat, rx: bool)
    requires IsOpened(g, l) && g.members == 1
    requires forall f :: f in multiset(remote) + multiset{frame} ==>
      f in l.frames && (multiset(remote) + multiset{frame})[f] == 1
    requires forall f :: f in multiset(remote) + multiset{frame} ==> l.reclaim.IsRx(f) == rx
    ensures |remote| < ClassSize(g, rx)
  {
    hide IsOpened, CompletionReclaim.IsRx, HomeFrames;
    var all := multiset(remote) + multiset{frame};
    forall f | f in all
      ensures f in HomeFrames(g, 0, rx)
    {
      OnlyHome(g, l, f);
    }
    Pigeonhole(all, HomeFrames(g, 0, rx));
    HomeFramesSize(g, 0, rx);
  }

  lemma OnlyHome(g: Geometry, l: Layout, f: nat)
    requires IsOpened(g, l) && g.members == 1 && f in l.frames
    ensures f in HomeFrames(g, 0, l.reclaim.IsRx(f))
  {
    hide IsOpened, CompletionReclaim.IsRx, HomeFrames;
    OpenedLayoutOk(g, l);
    ClassAndHome(g, l, f);
  }

  lemma DistinctActive(g: Geometry, l: Layout, remote: seq<nat>, frame: nat)
    requires IsOpened(g, l)
    requires forall f :: f in multiset(remote) + multiset{frame} ==>
      f in l.frames && (multiset(remote) + multiset{frame})[f] == 1
    ensures |remote| < g.TotalFrames()
  {
    hide CompletionReclaim.IsRx;
    Pigeonhole(multiset(remote) + multiset{frame}, l.frames);
    ActiveCount(g, g.TotalFrames());
  }

  /** Every run, both layouts, migration included: a buffer dropped on another thread
      always finds room in its pool's remote queue. */
  lemma RemoteQueuesNeverOverflow(g: Geometry, l: Layout, steps: seq<Step>, k: nat)
    requires IsOpened(g, l) && IsPow2(l.frameSize) && IsRun(l, Opened(g), steps)
    requires k < |Exec(l, Opened(g), steps).live|
    ensures var s := Exec(l, Opened(g), steps); var b := s.live[k];
      b.owner < g.members && |PoolOf(s.members[b.owner], b.fromRx).remote| < RemoteCapacity(g, l, b.fromRx)
  {
    OpenedInv(g, l);
    RunKeepsInv(l, Opened(g), steps);
    var s := Exec(l, Opened(g), steps);
    assert BufferOk(l, |s.members|, s.live[k]);
    RemoteBound(g, l, s, k);
  }

  // ---------------------------------------------------------------- in-flight counter

  /** Descriptors a step submits through member `m`, and completions it drains there. */
  function SubmittedBy(l: Layout, s: State, step: Step, m: nat): nat
    requires m < |s.members|
  {
    match step
    case SendBuffer(via, _, _) => if via == m then 1 else 0
    case SendEndpoint(via, max, _, _) => if via == m then |s.members[m].tx.pool.PopMany(max).1| else 0
    case _ => 0
  }

  function DrainedBy(s: State, step: Step, m: nat): nat
    requires m < |s.members|
  {
    match step
    case DrainCompletions(via, max) => if via == m then Min(max, |s.members[m].tx.completions|) else 0
    case _ => 0
  }

  function Submitted(l: Layout, s: State, steps: seq<Step>, m: nat): nat
    requires IsPow2(l.frameSize) && IsRun(l, s, steps) && m < |s.members|
    decreases |steps|
  {
    if steps == [] then 0 else SubmittedBy(l, s, steps[0], m) + Submitted(l, Next(l, s, steps[0]), steps[1..], m)
  }

  function DrainedTotal(l: Layout, s: State, steps: seq<Step>, m: nat): nat
    requires IsPow2(l.frameSize) && IsRun(l, s, steps) && m < |s.members|
    decreases |steps|
  {
    if steps == [] then 0 else DrainedBy(s, steps[0], m) + DrainedTotal(l, Next(l, s, steps[0]), steps[1..], m)
  }

  lemma DrainCounts(l: Layout, s: State, i: nat, max: nat)
    requires Inv(l, s) && i < |s.members|
    ensures Min(max, |s.members[i].tx.completions|) <= s.members[i].tx.inFlight
    ensures Drained(l, s.members[i], max).tx.inFlight
      == s.members[i].tx.inFlight - Min(max, |s.members[i].tx.completions|)
  {
    hide EachInOnePlace;
    assert MemberOk(l, s.members[i]);
    TxHeldIsActive(l, s, i);
    DrainEffect(l, s.members[i], max);
  }

  /** A drain never takes more than is in flight, so its subtraction never saturates. */
  lemma StepCounts(l: Layout, s: State, step: Step, m: nat)
    requires Inv(l, s) && IsPow2(l.frameSize) && Enabled(l, s, step) && m < |s.members|
    ensures DrainedBy(s, step, m) <= s.members[m].tx.inFlight
    ensures Next(l, s, step).members[m].tx.inFlight == s.members[m].tx.inFlight
      + SubmittedBy(l, s, step, m) - DrainedBy(s, step, m)
  {
    hide Inv, DrainResult, Receive;
    if step.DrainCompletions? { DrainCounts(l, s, step.m, step.max); }
  }

  /** In every run the counter is exactly what was submitted minus what was drained. */
  lemma {:induction false} InFlightIsExact(l: Layout, s: State, steps: seq<Step>, m: nat)
    requires Inv(l, s) && IsRun(l, s, steps) && m < |s.members|
    ensures Exec(l, s, steps).members[m].tx.inFlight + DrainedTotal(l, s, steps, m)
         == s.members[m].tx.inFlight + Submitted(l, s, steps, m)
    decreases |steps|
  {
    hide Inv;
    if steps != [] {
      LayoutOfInv(l, s);
      StepCounts(l, s, steps[0], m);
      StepKeepsInv(l, s, steps[0]);
      InFlightIsExact(l, Next(l, s, steps[0]), steps[1..], m);
    }
  }
}
