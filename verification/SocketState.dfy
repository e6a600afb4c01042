/** Owner-side operations of a live socket, each a loop over rings and pools, proved
    against the steps of the frame protocol. */
module SocketState {
  import opened Bits
  import opened Wrappers
  import opened Umem
  import opened FrameReclaim
  import opened FrameProtocol
  import opened FrameEffects
  import RawSocket

  lemma {:induction false} ReclaimAllAppend(cr: CompletionReclaim, umemLen: nat, a: seq<nat>, b: seq<nat>,
                                            rxFree: seq<nat>, txFree: seq<nat>)
    ensures var first := ReclaimAll(cr, umemLen, a, rxFree, txFree);
      ReclaimAll(cr, umemLen, a + b, rxFree, txFree)
      == if first.ok then ReclaimAll(cr, umemLen, b, first.rxFree, first.txFree) else first
    decreases |a|
  {
    if a == [] {
      assert a + b == b;
    } else {
      assert (a + b)[0] == a[0] && (a + b)[1..] == a[1..] + b;
      if cr.Rejects(a[0], umemLen) {
      } else if cr.IsRx(a[0]) {
        ReclaimAllAppend(cr, umemLen, a[1..], b, rxFree + [a[0]], txFree);
      } else {
        ReclaimAllAppend(cr, umemLen, a[1..], b, rxFree, txFree + [a[0]]);
      }
    }
  }

  class LiveXdpState {
    const layout: Layout
    const completionRing: nat
    const drainThreshold: nat
    const drainInterval: nat
    const rxReclaim: Reclaim
    const txReclaim: Reclaim
    var fill: seq<nat>
    ghost var dma: seq<nat>
    var rxRing: seq<XdpDesc>
    var txRing: seq<XdpDesc>
    var completions: seq<nat>
    var txInFlight: nat
    var txSinceCompletionDrain: nat

    ghost predicate Valid()
      reads this
    {
      rxReclaim != txReclaim && IsPow2(layout.frameSize) && |completions| <= completionRing
    }

    /** A socket as opened: RX frames prefill the FILL ring, TX frames are free. */
    constructor (layout: Layout, prefill: seq<nat>, txFrames: seq<nat>, completionRing: nat, drainThreshold: nat,
                 drainInterval: nat)
      requires IsPow2(layout.frameSize)
      ensures Valid() && fresh(rxReclaim) && fresh(txReclaim)
      ensures View() == Member(RxSide(prefill, [], [], Pool([], [])), TxSide([], [], Pool(txFrames, []), 0))
      ensures this.layout == layout && this.completionRing == completionRing
      ensures rxReclaim.capacity == |prefill| && txReclaim.capacity == |txFrames|
    {
      this.layout, this.completionRing := layout, completionRing;
      this.drainThreshold, this.drainInterval := drainThreshold, drainInterval;
      var rx := new Reclaim([], |prefill|, |prefill|);
      var tx := new Reclaim(txFrames, |txFrames|, |txFrames|);
      rxReclaim, txReclaim := rx, tx;
      fill, dma, rxRing, txRing, completions := prefill, [], [], [], [];
      txInFlight, txSinceCompletionDrain := 0, 0;
    }

    ghost function View(): Member
      reads this, rxReclaim, txReclaim
    {
      Member(RxSide(fill, dma, rxRing, rxReclaim.View()), TxSide(txRing, completions, txReclaim.View(), txInFlight))
    }

    /** `replenish_fill`: everything reclaimed goes to the FILL ring as far as it has
        room; the rest is pushed back. */
    method ReplenishFill()
      requires Valid()
      modifies this`fill, rxReclaim
      ensures Valid() && View() == old(View()).(rx := Refilled(layout, old(View().rx)))
      ensures |old(fill)| <= layout.fillSize ==>
                && RefillMoves(layout.fillSize, old(View().rx), View().rx) && FullyRefilled(layout.fillSize, View().rx)
    {
      if |fill| <= layout.fillSize { RefillExact(layout, View().rx); }
      var room := SaturatingSub(layout.fillSize, |fill|);
      ghost var rx := View().rx;
      var empty := rxReclaim.IsEmpty();
      if empty {
        assert rx.pool.free + rx.pool.remote == [];
        assert fill + [] == fill;
        return;
      }
      var scratch := rxReclaim.DrainInto([]);
      assert scratch == old(rxReclaim.free + rxReclaim.remote);
      var written := Min(|scratch|, room);
      fill := fill + scratch[..written];
      PushBack(scratch[written..]);
      assert View().rx == Replenished(rx, room);
    }

    method PushBack(addrs: seq<nat>)
      modifies rxReclaim
      ensures rxReclaim.View() == PushAll(old(rxReclaim.View()), addrs)
    {
      for i := 0 to |addrs|
        invariant rxReclaim.View() == PushAll(old(rxReclaim.View()), addrs[..i])
      {
        assert addrs[..i + 1] == addrs[..i] + [addrs[i]];
        rxReclaim.Push(addrs[i], true);
      }
      assert addrs[..|addrs|] == addrs;
    }

    /** `drain_tx_completions_inner`: the reserved completions come as two slices split
        at `wrap`; the second is only looked at when the first had no bad entry, and the
        ring entries are released either way.  Free capacity for the pushes is owed. */
    method DrainTxCompletions(wrap: nat) returns (completed: Option<nat>)
      requires Valid() && wrap <= |completions|
      requires var done := DrainResult(layout, View(), completionRing);
        |done.rxFree| <= rxReclaim.capacity && |done.txFree| <= txReclaim.capacity
      modifies this`completions, this`txInFlight, this`txSinceCompletionDrain, rxReclaim, txReclaim
      ensures Valid() && View() == Drained(layout, old(View()), completionRing)
      ensures completed == if DrainResult(layout, old(View()), completionRing).ok then Some(|old(completions)|)
        else None
      ensures completions == [] && rxReclaim.capacity == old(rxReclaim.capacity)
      ensures txReclaim.capacity == old(txReclaim.capacity)
    {
      ghost var before := View();
      var first, second := completions[..wrap], completions[wrap..];
      assert completions == first + second && completions[..|completions|] == completions;
      BasesAppend(first, second, layout.frameSize);
      ghost var firstBases, secondBases := Bases(first, layout.frameSize), Bases(second, layout.frameSize);
      ReclaimAllAppend(layout.reclaim, layout.umemLen, firstBases, secondBases, rxReclaim.free, txReclaim.free);
      ghost var done := ReclaimAll(layout.reclaim, layout.umemLen, firstBases, rxReclaim.free, txReclaim.free);
      ReclaimAllGrows(layout.reclaim, layout.umemLen, secondBases, done.rxFree, done.txFree);
      var r := ReclaimCompletions(layout.reclaim, layout.frameSize, layout.umemLen, first, rxReclaim.free,
                                  rxReclaim.capacity, txReclaim.free, txReclaim.capacity);
      if r.ok {
        r := ReclaimCompletions(layout.reclaim, layout.frameSize, layout.umemLen, second, r.rxFree, rxReclaim.capacity,
                                r.txFree, txReclaim.capacity);
      }
      rxReclaim.free := r.rxFree;
      txReclaim.free := r.txFree;
      var count := |completions|;
      completions := [];
      assert before.tx.completions[count..] == [];
      if !r.ok { return None; }
      txInFlight := SaturatingSub(txInFlight, count);
      txSinceCompletionDrain := 0;
      return Some(count);
    }

    /** Completed frames that a drain would accept: those ahead of the first bad one. */
    ghost function Good(): seq<nat>
      requires Valid()
      reads this
    {
      Accepted(layout.reclaim, layout.umemLen, Bases(completions, layout.frameSize))
    }

    /** One class of them. */
    ghost function Completed(rx: bool): seq<nat>
      requires Valid()
      reads this
    {
      OfClass(layout.reclaim, Good(), rx)
    }

    /** Free capacity for everything a drain could push. */
    ghost predicate DrainRoom()
      requires Valid()
      reads this, rxReclaim, txReclaim
    {
      && |rxReclaim.free| + |Completed(true)| <= rxReclaim.capacity
      && |txReclaim.free| + |Completed(false)| <= txReclaim.capacity
    }

    /** TX frames within reach of an allocation: the pool and the completed ones. */
    ghost function TxReach(): multiset<nat>
      requires Valid()
      reads this, txReclaim
    {
      txReclaim.View().Frames() + multiset(Completed(false))
    }

    /** RX frames in the pool and among the completed ones. */
    ghost function RxReach(): multiset<nat>
      requires Valid()
      reads this, rxReclaim
    {
      rxReclaim.View().Frames() + multiset(Completed(true))
    }

    ghost function TxReachCount(): nat
      requires Valid()
      reads this, txReclaim
    {
      |txReclaim.free| + |txReclaim.remote| + |Completed(false)|
    }

    /** No completion lies outside the active frames. */
    ghost predicate AllGood()
      requires Valid()
      reads this
    {
      |Good()| == |completions|
    }

    /** `drain_completions_if_tx_pressure` drains. */
    predicate Pressure()
      reads this
    {
      txInFlight >= drainThreshold && txSinceCompletionDrain >= drainInterval
    }

    /** `allocate_tx_batch_inner`: takes frames until the batch is full, draining
        completions under pressure and when the pool runs dry.  It fails exactly when it
        drains and a completion is out of range.  Otherwise it gets as many frames as
        pool and TX-class completions hold together; either way it loses none of them, and
        RX-class completions drained on the way are in the RX pool.  As member `me` of any
        state the whole call is a run of the frame protocol's allocate and drain steps. */
    method AllocateTxBatch(max: nat, wrap: nat, me: nat, ghost s: State)
      returns (out: seq<Buffer>, ok: bool, ghost steps: seq<Step>)
      requires Valid() && wrap <= |completions| && DrainRoom() && me < |s.members| && s.members[me] == View()
      modifies this`completions, this`txInFlight, this`txSinceCompletionDrain, rxReclaim, txReclaim
      ensures Valid()
      ensures ok <==>
        max == 0 || old(AllGood()) || (!old(Pressure()) && max <= |old(txReclaim.free)| + |old(txReclaim.remote)|)
      ensures ok ==> |out| == Min(max, old(TxReachCount()))
      ensures !ok ==> |out| == if old(Pressure()) then 0 else |old(txReclaim.free)| + |old(txReclaim.remote)|
      ensures ok && |out| < max ==> completions == [] && txReclaim.View() == Pool([], [])
      ensures var due := old(txInFlight) >= drainThreshold && old(txSinceCompletionDrain) >= drainInterval;
        && (ok && max > 0 && due ==> completions == [])
        && (!due && max <= |old(txReclaim.free)| + |old(txReclaim.remote)| ==> completions == old(completions))
      ensures multiset(BufferFrames(out)) + TxReach() == old(TxReach()) && RxReach() == old(RxReach())
      ensures AllocatesOrDrains(steps, me) && RunTo(layout, s, steps, Allocated(s, me, View(), out))
    {
      hide LiveXdpState.TxReach, LiveXdpState.RxReach, Accepted, OfClass, Bases, IsPow2, BufferFrames;
      hide RunTo, Allocated, AllocatesOrDrains, LiveXdpState.View;
      NoBuffers();
      out, steps := [], [];
      NothingRun(layout, s, me, View());
      if max == 0 { return out, true, steps; }
      if Pressure() {
        var drained;
        drained, steps := DrainRun(wrap, s, me, out, steps);
        if drained.None? { return out, false, steps; }
      }
      ghost var start := |txReclaim.free| + |txReclaim.remote|;
      var drainedAfterEmpty := false;
      while |out| < max
        invariant Valid() && |out| <= max
        invariant completions == old(completions) || (completions == [] && old(AllGood()))
        invariant old(Pressure()) ==> completions == [] && old(AllGood())
        invariant !old(Pressure()) && completions == old(completions) ==>
          |out| + |txReclaim.free| + |txReclaim.remote| == start
        invariant !old(Pressure()) ==> start == |old(txReclaim.free)| + |old(txReclaim.remote)|
        invariant !old(Pressure()) && max <= start ==> completions == old(completions)
        invariant |rxReclaim.free| + |Completed(true)| <= rxReclaim.capacity && |Completed(false)| <= txReclaim.capacity
        invariant drainedAfterEmpty ==> completions == []
        invariant |out| + TxReachCount() == old(TxReachCount())
        invariant multiset(BufferFrames(out)) + TxReach() == old(TxReach()) && RxReach() == old(RxReach())
        invariant AllocatesOrDrains(steps, me) && RunTo(layout, s, steps, Allocated(s, me, View(), out))
        decreases max - |out|, |completions|
      {
        var count;
        out, count, steps := AllocateRun(out, max - |out|, s, me, steps);
        if count > 0 {
          drainedAfterEmpty := false;
          continue;
        }
        if drainedAfterEmpty { break; }
        NothingCompleted();
        var drained;
        drained, steps := DrainRun(Min(wrap, |completions|), s, me, out, steps);
        if drained.None? { return out, false, steps; }
        if drained.value == 0 { break; }
        drainedAfterEmpty := true;
      }
      NothingCompleted();
      ok := true;
    }

    /** A drain within a run. */
    method DrainRun(wrap: nat, ghost s: State, ghost me: nat, ghost out: seq<Buffer>, ghost steps0: seq<Step>)
      returns (drained: Option<nat>, ghost steps: seq<Step>)
      requires Valid() && wrap <= |completions| && DrainRoom() && me < |s.members|
      requires AllocatesOrDrains(steps0, me) && RunTo(layout, s, steps0, Allocated(s, me, View(), out))
      modifies this`completions, this`txInFlight, this`txSinceCompletionDrain, rxReclaim, txReclaim
      ensures Valid() && completions == [] && DrainRoom() && Completed(true) == [] && Completed(false) == []
      ensures drained == if old(AllGood()) then Some(|old(completions)|) else None
      ensures TxReach() == old(TxReach()) && TxReachCount() == old(TxReachCount()) && RxReach() == old(RxReach())
      ensures txReclaim.View() == PushAll(old(txReclaim.View()), old(Completed(false)))
      ensures AllocatesOrDrains(steps, me) && RunTo(layout, s, steps, Allocated(s, me, View(), out))
    {
      hide LiveXdpState.TxReach, LiveXdpState.RxReach, Accepted, OfClass, Bases, IsPow2, RunTo, Drained;
      ghost var before := View();
      drained := DrainReach(wrap);
      steps := steps0 + [DrainCompletions(me, completionRing)];
      DrainStep(layout, s, steps0, me, before, out, completionRing);
    }

    /** An `allocate_many` within a run. */
    method AllocateRun(out0: seq<Buffer>, max: nat, ghost s: State, me: nat, ghost steps0: seq<Step>)
      returns (out: seq<Buffer>, count: nat, ghost steps: seq<Step>)
      requires Valid() && me < |s.members|
      requires AllocatesOrDrains(steps0, me) && RunTo(layout, s, steps0, Allocated(s, me, View(), out0))
      modifies txReclaim
      ensures Valid() && |out| == |out0| + count && txReclaim.capacity >= old(txReclaim.capacity)
      ensures count == Min(max, |old(txReclaim.free)| + |old(txReclaim.remote)|)
      ensures |txReclaim.free| + |txReclaim.remote| + count == |old(txReclaim.free)| + |old(txReclaim.remote)|
      ensures multiset(BufferFrames(out)) + TxReach() == multiset(BufferFrames(out0)) + old(TxReach())
      ensures AllocatesOrDrains(steps, me) && RunTo(layout, s, steps, Allocated(s, me, View(), out))
    {
      hide LiveXdpState.TxReach, Accepted, OfClass, Bases, IsPow2, RunTo, Pool.PopMany, Allocated, BufferFrames;
      ghost var before := View();
      out, count := AllocateMany(out0, max, me);
      steps := steps0 + [Allocate(me, max)];
      AllocateStep(layout, s, steps0, me, before, out0, max);
    }

    /** An empty completion ring has nothing to offer and nothing bad. */
    lemma NothingCompleted()
      requires Valid()
      ensures completions == [] ==> AllGood() && Completed(true) == [] && Completed(false) == []
    {
    }

    /** `allocate_many`: as many buffers as the pool has frames, up to `max`. */
    method AllocateMany(out: seq<Buffer>, max: nat, me: nat) returns (r: seq<Buffer>, count: nat)
      requires Valid()
      modifies txReclaim
      ensures Valid() && |r| == |out| + count && txReclaim.capacity >= old(txReclaim.capacity)
      ensures count == Min(max, |old(txReclaim.free)| + |old(txReclaim.remote)|)
      ensures |txReclaim.free| + |txReclaim.remote| + count == |old(txReclaim.free)| + |old(txReclaim.remote)|
      ensures multiset(BufferFrames(r)) + TxReach() == multiset(BufferFrames(out)) + old(TxReach())
      ensures var (pool, taken) := old(View()).tx.pool.PopMany(max);
        r == out + NewBuffers(taken, me) && View() == old(View()).(tx := old(View()).tx.(pool := pool))
    {
      hide Accepted, OfClass, Bases, IsPow2, Pool.PopMany, BufferFrames;
      ghost var pool := txReclaim.View();
      var taken := txReclaim.PopMany(max);
      PopManyConserves(pool, max);
      r, count := out + NewBuffers(taken, me), |taken|;
      assert BufferFrames(r) == BufferFrames(out) + taken;
    }

    /** A drain: the accepted frames of each class join its pool, and it fails exactly
        when a completion is out of range. */
    method DrainReach(wrap: nat) returns (drained: Option<nat>)
      requires Valid() && wrap <= |completions| && DrainRoom()
      modifies this`completions, this`txInFlight, this`txSinceCompletionDrain, rxReclaim, txReclaim
      ensures Valid() && completions == [] && DrainRoom() && Completed(true) == [] && Completed(false) == []
      ensures drained == if old(AllGood()) then Some(|old(completions)|) else None
      ensures TxReach() == old(TxReach()) && TxReachCount() == old(TxReachCount()) && RxReach() == old(RxReach())
      ensures View() == Drained(layout, old(View()), completionRing)
      ensures txReclaim.View() == PushAll(old(txReclaim.View()), old(Completed(false)))
      ensures rxReclaim.View() == PushAll(old(rxReclaim.View()), old(Completed(true)))
      ensures rxReclaim.capacity == old(rxReclaim.capacity) && txReclaim.capacity == old(txReclaim.capacity)
    {
      assert completions[..|completions|] == completions;
      ReclaimAllAccepts(layout.reclaim, layout.umemLen, Bases(completions, layout.frameSize), rxReclaim.free,
                        txReclaim.free);
      drained := DrainTxCompletions(wrap);
    }

    /** The receive call.  `accepts` stands for parsing the frame and wrapping it in a
        buffer; `out` are the frames handed to the application. */
    method RecvFrames(max: nat, accepts: XdpDesc -> bool, me: nat, meanwhile: nat, ghost live: seq<Buffer>)
      returns (out: seq<Buffer>, ok: bool)
      requires Valid() && meanwhile <= |Refilled(layout, View().rx).fill|
      modifies this`fill, this`dma, this`rxRing, rxReclaim
      ensures Valid() && View().tx == old(View().tx)
      ensures var rx0 := old(View().rx); var count := Min(max, |rx0.ring|);
        var flags := Flags(layout, rx0.ring[..count], accepts);
        && (forall k :: 0 <= k < count && flags[k] ==> Deliverable(layout, rx0.ring[k]))
        && (View().rx, live + out) == AfterRecv(layout, me, rx0, count, flags, meanwhile, live)
        && ok == AllInFrames(layout, rx0.ring[..count])
        && (|rx0.fill| <= layout.fillSize && ok ==>
              && out == RxBuffers(Kept(DescBases(layout, rx0.ring[..count]), flags, true), me)
              && (count > 0 ==> FullyRefilled(layout.fillSize, View().rx)))
    {
      hide Receive, AfterRecv, DescBases, Deliverable, AllInFrames, Kept;
      RecvMeans(layout, me, View().rx, Min(max, |rxRing|), accepts, meanwhile, live);
      ghost var descs := rxRing[..Min(max, |rxRing|)];
      ghost var given := RxBuffers(Kept(DescBases(layout, descs), Flags(layout, descs, accepts), true), me);
      out, ok := ReceiveLoop(max, accepts, me, meanwhile, live);
      assert (live + out)[|live|..] == out && (live + given)[|live|..] == given;
    }

    method ReceiveLoop(max: nat, accepts: XdpDesc -> bool, me: nat, meanwhile: nat, ghost live: seq<Buffer>)
      returns (out: seq<Buffer>, ok: bool)
      requires Valid() && meanwhile <= |Refilled(layout, View().rx).fill|
      modifies this`fill, this`dma, this`rxRing, rxReclaim
      ensures Valid() && View().tx == old(View().tx)
      ensures var rx0 := old(View().rx); var count := Min(max, |rx0.ring|);
        var flags := Flags(layout, rx0.ring[..count], accepts);
        && (forall k :: 0 <= k < count && flags[k] ==> Deliverable(layout, rx0.ring[k]))
        && (View().rx, live + out) == AfterRecv(layout, me, rx0, count, flags, meanwhile, live)
        && ok == Receive(layout, me, rx0.ring[..count], flags, Refilled(layout, rx0).pool, live).ok
    {
      hide Receive, CrossesFrame, InUmem, DescBases, Deliverable, RefillMoves, FullyRefilled;
      ReplenishFill();
      ghost var rx := View().rx;
      KernelTakes(meanwhile);
      var count := Min(max, |rxRing|);
      var descs := rxRing[..count];
      rxRing := rxRing[count..];
      out := [];
      ReceiveNothing(layout, me, accepts, rx.pool, live);
      if count == 0 {
        assert live + out == live;
        return out, true;
      }
      ghost var whole := Receive(layout, me, descs, Flags(layout, descs, accepts), rx.pool, live);
      assert descs[0..] == descs && live + out == live;
      var i := 0;
      while i < count
        invariant 0 <= i <= count && Valid()
        invariant rxRing == rx.ring[count..] && fill == rx.fill[meanwhile..] && dma == rx.dma + rx.fill[..meanwhile]
        invariant whole
               == Receive(layout, me, descs[i..], Flags(layout, descs[i..], accepts), rxReclaim.View(), live + out)
      {
        var desc := descs[i];
        ReceiveStep(layout, me, descs, i, accepts, rxReclaim.View(), live + out);
        if CrossesFrame(layout, desc) {
          ReclaimRxDescs(descs[i..]);
          assert descs[i..][0] == desc;
          return out, false;
        }
        var base := FrameBase(desc.addr, layout.frameSize);
        if Deliverable(layout, desc) && accepts(desc) {
          assert live + (out + [Buffer(base, me, true)]) == live + out + [Buffer(base, me, true)];
          out := out + [Buffer(base, me, true)];
        } else {
          rxReclaim.Push(base, true);
        }
        i := i + 1;
      }
      assert descs[count..] == [];
      ReceiveNothing(layout, me, accepts, rxReclaim.View(), live + out);
      ReplenishFill();
      return out, true;
    }

    /** The kernel takes entries of the FILL ring while the receive loop runs. */
    method KernelTakes(n: nat)
      requires Valid() && n <= |fill|
      modifies this`fill, this`dma
      ensures Valid() && View() == old(View()).(rx := TookFill(old(View().rx), n))
    {
      dma := dma + fill[..n];
      fill := fill[n..];
    }

    /** `reclaim_rx_descs`: every frame that lies in the UMEM goes back to the pool. */
    method ReclaimRxDescs(descs: seq<XdpDesc>)
      requires Valid()
      modifies rxReclaim
      ensures Valid() && rxReclaim.View() == PushAll(old(rxReclaim.View()), InUmem(layout, DescBases(layout, descs)))
    {
      hide InUmem, FrameBase, IsPow2;
      ghost var bases := DescBases(layout, descs);
      ghost var all := InUmem(layout, bases);
      InUmemEnd(layout, bases);
      var i := 0;
      while i < |descs|
        invariant 0 <= i <= |descs|
        invariant rxReclaim.remote == old(rxReclaim.remote)
        invariant rxReclaim.free + InUmem(layout, bases[i..]) == old(rxReclaim.free) + all
      {
        var base := FrameBase(descs[i].addr, layout.frameSize);
        InUmemNext(layout, bases, i);
        if base < layout.umemLen {
          assert rxReclaim.free + ([base] + InUmem(layout, bases[i + 1..])) == rxReclaim.free + [base]
            + InUmem(layout, bases[i + 1..]);
          rxReclaim.Push(base, true);
        }
        i := i + 1;
      }
      assert rxReclaim.free + [] == rxReclaim.free;
    }
  }

  // ---------------------------------------------------------------- calls as runs

  /** A run of the frame protocol that ends in `t`. */
  ghost predicate RunTo(l: Layout, s: State, steps: seq<Step>, t: State)
  {
    IsPow2(l.frameSize) && IsRun(l, s, steps) && Exec(l, s, steps) == t
  }

  /** A state in which member `me` has become `member` and holds more live buffers. */
  function Allocated(s: State, me: nat, member: Member, out: seq<Buffer>): State
    requires me < |s.members|
  {
    State(s.members[me := member], s.live + out)
  }

  ghost predicate AllocatesOrDrains(steps: seq<Step>, me: nat)
  {
    forall k :: 0 <= k < |steps| ==> (steps[k].Allocate? || steps[k].DrainCompletions?) && steps[k].m == me
  }

  lemma NothingRun(l: Layout, s: State, me: nat, member: Member)
    requires IsPow2(l.frameSize) && me < |s.members| && s.members[me] == member
    ensures RunTo(l, s, [], Allocated(s, me, member, [])) && AllocatesOrDrains([], me)
  {
    assert s.live + [] == s.live && s.members[me := member] == s.members;
  }

  lemma {:induction false} OneMoreStep(l: Layout, s: State, steps: seq<Step>, t: State, step: Step)
    requires RunTo(l, s, steps, t) && Enabled(l, t, step)
    ensures RunTo(l, s, steps + [step], Next(l, t, step))
    decreases |steps|
  {
    hide Enabled, Next;
    if steps == [] {
      var u := Next(l, t, step);
      assert (steps + [step])[0] == step && (steps + [step])[1..] == [];
      assert IsRun(l, u, []) && Exec(l, u, []) == u;
    } else {
      assert (steps + [step])[0] == steps[0] && (steps + [step])[1..] == steps[1..] + [step];
      OneMoreStep(l, Next(l, s, steps[0]), steps[1..], t, step);
    }
  }

  lemma DrainStep(l: Layout, s: State, steps: seq<Step>, me: nat, member: Member, out: seq<Buffer>, max: nat)
    requires me < |s.members| && RunTo(l, s, steps, Allocated(s, me, member, out))
    ensures RunTo(l, s, steps + [DrainCompletions(me, max)], Allocated(s, me, Drained(l, member, max), out))
  {
    hide Drained, RunTo;
    var t := Allocated(s, me, member, out);
    RunSizes(l, s, steps, t);
    OneMoreStep(l, s, steps, t, DrainCompletions(me, max));
    assert Next(l, t, DrainCompletions(me, max)) == Allocated(s, me, Drained(l, member, max), out);
  }

  lemma RunSizes(l: Layout, s: State, steps: seq<Step>, t: State)
    requires RunTo(l, s, steps, t)
    ensures IsPow2(l.frameSize)
  {
  }

  lemma AllocateStep(l: Layout, s: State, steps: seq<Step>, me: nat, member: Member, out: seq<Buffer>, max: nat)
    requires me < |s.members| && RunTo(l, s, steps, Allocated(s, me, member, out))
    ensures var (pool, taken) := member.tx.pool.PopMany(max);
      RunTo(l, s, steps + [Allocate(me, max)],
            Allocated(s, me, member.(tx := member.tx.(pool := pool)), out + NewBuffers(taken, me)))
  {
    hide RunTo, Pool.PopMany;
    var t := Allocated(s, me, member, out);
    RunSizes(l, s, steps, t);
    OneMoreStep(l, s, steps, t, Allocate(me, max));
    var (pool, taken) := member.tx.pool.PopMany(max);
    assert s.live + out + NewBuffers(taken, me) == s.live + (out + NewBuffers(taken, me));
    assert Next(l, t, Allocate(me, max))
        == Allocated(s, me, member.(tx := member.tx.(pool := pool)), out + NewBuffers(taken, me));
  }

  lemma InUmemNext(l: Layout, bases: seq<nat>, i: nat)
    requires i < |bases|
    ensures InUmem(l, bases[i..]) == (if bases[i] < l.umemLen then [bases[i]] else []) + InUmem(l, bases[i + 1..])
  {
    assert bases[i..][1..] == bases[i + 1..];
  }

  lemma InUmemEnd(l: Layout, bases: seq<nat>)
    ensures bases[0..] == bases && bases[|bases|..] == [] && InUmem(l, []) == []
  {
  }

  lemma NoBuffers()
    ensures BufferFrames([]) == []
  {
  }

  /** Which descriptors are delivered: long enough for the parser and the buffer wrapper, and
      accepted by the rest of their tests. */
  function Flags(l: Layout, descs: seq<XdpDesc>, accepts: XdpDesc -> bool): (r: seq<bool>)
    requires IsPow2(l.frameSize)
    ensures |r| == |descs| && forall k :: 0 <= k < |descs| ==> r[k] == (Deliverable(l, descs[k]) && accepts(descs[k]))
  {
    seq(|descs|, k requires 0 <= k < |descs| => Deliverable(l, descs[k]) && accepts(descs[k]))
  }

  /** What the loop's result is for the caller, whatever the kernel takes meanwhile. */
  lemma RecvMeans(l: Layout, me: nat, rx: RxSide, count: nat, accepts: XdpDesc -> bool, meanwhile: nat,
                  live: seq<Buffer>)
    requires IsPow2(l.frameSize) && count <= |rx.ring| && meanwhile <= |Refilled(l, rx).fill|
    ensures var descs := rx.ring[..count]; var flags := Flags(l, descs, accepts);
      && Receive(l, me, descs, flags, Refilled(l, rx).pool, live).ok == AllInFrames(l, descs)
      && (|rx.fill| <= l.fillSize && AllInFrames(l, descs) ==>
            var (rx', live') := AfterRecv(l, me, rx, count, flags, meanwhile, live);
            && live' == live + RxBuffers(Kept(DescBases(l, descs), flags, true), me)
            && (count > 0 ==> FullyRefilled(l.fillSize, rx')))
  {
    hide Receive, CrossesFrame, DescBases, AllInFrames, Kept, AfterRecv;
    var descs := rx.ring[..count];
    ReceiveAllExact(l, me, descs, Flags(l, descs, accepts), Refilled(l, rx).pool, live);
    if |rx.fill| <= l.fillSize {
      RecvExact(l, me, rx, count, Flags(l, descs, accepts), meanwhile, live);
    }
  }

  lemma ReceiveNothing(l: Layout, m: nat, accepts: XdpDesc -> bool, pool: Pool, live: seq<Buffer>)
    requires IsPow2(l.frameSize)
    ensures Receive(l, m, [], Flags(l, [], accepts), pool, live) == Received(pool, live, true)
  {
  }

  /** One iteration of the receive loop on the rest of the descriptors. */
  lemma ReceiveStep(l: Layout, m: nat, descs: seq<XdpDesc>, i: nat, accepts: XdpDesc -> bool, pool: Pool,
                    live: seq<Buffer>)
    requires IsPow2(l.frameSize) && i < |descs|
    ensures var base := FrameBase(descs[i].addr, l.frameSize); var rest := descs[i + 1..];
      Receive(l, m, descs[i..], Flags(l, descs[i..], accepts), pool, live)
      == if CrossesFrame(l, descs[i]) then Received(PushAll(pool, InUmem(l, DescBases(l, descs[i..]))), live, false)
         else if Deliverable(l, descs[i]) && accepts(descs[i]) then
           Receive(l, m, rest, Flags(l, rest, accepts), pool, live + [Buffer(base, m, true)])
         else Receive(l, m, rest, Flags(l, rest, accepts), pool.PushOwner(base), live)
  {
    hide Deliverable, FrameBase;
    assert descs[i..][1..] == descs[i + 1..];
    assert Flags(l, descs[i..], accepts)[1..] == Flags(l, descs[i + 1..], accepts);
  }

  // ---------------------------------------------------------------- submitting

  /** Descriptors prepared within the reported TX room are all accepted, so the
      "accepted fewer than reserved" assertion cannot fire. */
  method SubmitReserved(tx: RawSocket.ProducerRing<XdpDesc>, wanted: seq<XdpDesc>) returns (accepted: nat)
    requires tx.Valid()
    modifies tx, tx.prod, tx.prod.words, tx.desc
    ensures tx.Valid() && accepted == Min(|wanted|, old(tx.Room()))
    ensures tx.desc[..] == RawSocket.WriteAll(old(tx.desc[..]), old(tx.prod.cachedProducer), wanted[..accepted])
    ensures accepted > 0 ==> tx.prod.words.producer == tx.prod.cachedProducer
  {
    var available := tx.TxAvailable();
    var prepared := Min(|wanted|, available);
    accepted := tx.EnqueueBatch(wanted[..prepared]);
    assert accepted == prepared;
    assert wanted[..prepared][..accepted] == wanted[..accepted];
    if accepted > 0 {
      tx.Commit();
    }
  }
}
