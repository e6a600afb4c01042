/** Every step of the frame protocol keeps every frame in exactly one place and in
    lists of its own class, so every run does. */
module FrameInvariant {
  import opened Bits
  import opened Wrappers
  import opened Umem
  import opened FrameReclaim
  import opened FrameProtocol

  // ---------------------------------------------------------------- sequences and multisets

  lemma WithoutRemovesOne<T>(s: seq<T>, k: nat)
    requires k < |s|
    ensures multiset(Without(s, k)) + multiset{s[k]} == multiset(s)
  {
    assert s == s[..k] + [s[k]] + s[k + 1..];
  }

  lemma BasesOfWithout(l: Layout, descs: seq<XdpDesc>, k: nat)
    requires IsPow2(l.frameSize) && k < |descs|
    ensures DescBases(l, Without(descs, k)) == Without(DescBases(l, descs), k)
  {
  }

  lemma BasesOfAppend(l: Layout, a: seq<XdpDesc>, b: seq<XdpDesc>)
    requires IsPow2(l.frameSize)
    ensures DescBases(l, a + b) == DescBases(l, a) + DescBases(l, b)
  {
  }

  lemma FramesOfAppend(a: seq<Buffer>, b: seq<Buffer>)
    ensures BufferFrames(a + b) == BufferFrames(a) + BufferFrames(b)
  {
  }

  lemma FramesOfWithout(live: seq<Buffer>, i: nat)
    requires i < |live|
    ensures multiset(BufferFrames(Without(live, i))) + multiset{live[i].frame} == multiset(BufferFrames(live))
  {
    assert BufferFrames(Without(live, i)) == Without(BufferFrames(live), i);
    WithoutRemovesOne(BufferFrames(live), i);
  }

  // ---------------------------------------------------------------- totals

  lemma {:induction false} SumUpdate(parts: seq<multiset<nat>>, i: nat, part: multiset<nat>)
    requires i < |parts|
    ensures SumOf(parts[i := part]) + parts[i] == SumOf(parts) + part
    decreases |parts|
  {
    if i == 0 {
      assert parts[0 := part][1..] == parts[1..];
    } else {
      SumUpdate(parts[1..], i - 1, part);
      assert parts[i := part][1..] == parts[1..][i - 1 := part];
      AddToBoth(parts[0], SumOf(parts[1..][i - 1 := part]), parts[i], SumOf(parts[1..]), part);
    }
  }

  lemma AddToBoth(a: multiset<nat>, b': multiset<nat>, p: multiset<nat>, b: multiset<nat>, q: multiset<nat>)
    requires b' + p == b + q
    ensures (a + b') + p == (a + b) + q
  {
    forall x
      ensures ((a + b') + p)[x] == ((a + b) + q)[x]
    {
      assert (b' + p)[x] == (b + q)[x];
    }
  }

  lemma {:induction false} SumIncludes(parts: seq<multiset<nat>>, i: nat)
    requires i < |parts|
    ensures parts[i] <= SumOf(parts)
    decreases |parts|
  {
    if i > 0 { SumIncludes(parts[1..], i - 1); }
  }

  lemma AllOwnedUpdate(l: Layout, ms: seq<Member>, i: nat, m: Member)
    requires IsPow2(l.frameSize) && i < |ms|
    ensures AllOwned(l, ms[i := m]) + Owned(l, ms[i]) == AllOwned(l, ms) + Owned(l, m)
  {
    SumUpdate(OwnedBy(l, ms), i, Owned(l, m));
    assert OwnedBy(l, ms[i := m]) == OwnedBy(l, ms)[i := Owned(l, m)];
  }

  lemma AllOwnedIncludes(l: Layout, ms: seq<Member>, i: nat)
    requires IsPow2(l.frameSize) && i < |ms|
    ensures Owned(l, ms[i]) <= AllOwned(l, ms)
  {
    SumIncludes(OwnedBy(l, ms), i);
  }

  /** A step that changes one member and the live buffers keeps the total when the
      frames of the two together are kept. */
  lemma TotalKept(l: Layout, s: State, i: nat, m: Member, live: seq<Buffer>)
    requires IsPow2(l.frameSize) && i < |s.members|
    requires Owned(l, m) + multiset(BufferFrames(live)) == Owned(l, s.members[i]) + multiset(BufferFrames(s.live))
    ensures Total(l, State(s.members[i := m], live)) == Total(l, s)
  {
    AllOwnedUpdate(l, s.members, i, m);
    var a, a' := AllOwned(l, s.members), AllOwned(l, s.members[i := m]);
    var o, o' := Owned(l, s.members[i]), Owned(l, m);
    var b, b' := multiset(BufferFrames(s.live)), multiset(BufferFrames(live));
    CancelMiddle(a, a', o, o', b, b');
  }

  lemma CancelMiddle(a: multiset<nat>, a': multiset<nat>, o: multiset<nat>, o': multiset<nat>, b: multiset<nat>,
                     b': multiset<nat>)
    requires a' + o == a + o' && o' + b' == o + b
    ensures a' + b' == a + b
  {
    forall x
      ensures (a' + b')[x] == (a + b)[x]
    {
      assert (a' + o)[x] == (a + o')[x];
      assert (o' + b')[x] == (o + b)[x];
    }
  }

  /** Frames found anywhere are active frames of the UMEM. */
  lemma HeldIsActive(l: Layout, s: State, i: nat)
    requires Inv(l, s) && i < |s.members|
    ensures forall f :: f in Owned(l, s.members[i]) ==> f in l.frames
  {
    AllOwnedIncludes(l, s.members, i);
    forall f | f in Owned(l, s.members[i])
      ensures f in l.frames
    {
      assert Total(l, s)[f] > 0 && Places(l, s, f) > 0;
    }
  }

  lemma RxHeldIsActive(l: Layout, s: State, i: nat)
    requires Inv(l, s) && i < |s.members|
    ensures RxHolds(l, RxOwned(l, s.members[i].rx))
  {
    HeldIsActive(l, s, i);
    assert MemberOk(l, s.members[i]);
    forall f | f in RxOwned(l, s.members[i].rx)
      ensures f in l.frames
    {
      assert f in Owned(l, s.members[i]);
    }
  }

  /** All these frames are RX-class frames inside the UMEM. */
  ghost predicate RxHolds(l: Layout, frames: multiset<nat>)
  {
    forall f :: f in frames ==> f < l.umemLen && l.reclaim.IsRx(f)
  }

  lemma LiveIsActive(l: Layout, s: State, k: nat)
    requires Inv(l, s) && k < |s.live|
    ensures s.live[k].frame in l.frames
  {
    assert BufferFrames(s.live)[k] == s.live[k].frame;
    assert Places(l, s, s.live[k].frame) > 0;
  }

  /** Closing argument shared by all steps. */
  lemma InvRestored(l: Layout, s: State, i: nat, m: Member, live: seq<Buffer>)
    requires Inv(l, s) && i < |s.members|
    requires Owned(l, m) + multiset(BufferFrames(live)) == Owned(l, s.members[i]) + multiset(BufferFrames(s.live))
    requires MemberOk(l, m)
    requires forall k :: 0 <= k < |live| ==> BufferOk(l, |s.members|, live[k])
    ensures Inv(l, State(s.members[i := m], live))
  {
    hide Total;
    TotalKept(l, s, i, m, live);
    var s' := State(s.members[i := m], live);
    forall f
      ensures Places(l, s', f) == if f in l.frames then 1 else 0
    {
      assert Places(l, s, f) == if f in l.frames then 1 else 0;
    }
  }

  // ---------------------------------------------------------------- receive side

  lemma TakeFillKeepsOwned(l: Layout, rx: RxSide)
    requires IsPow2(l.frameSize) && rx.fill != []
    ensures RxOwned(l, rx.(fill := rx.fill[1..], dma := rx.dma + [rx.fill[0]])) == RxOwned(l, rx)
  {
    assert rx.fill == [rx.fill[0]] + rx.fill[1..];
  }

  lemma TookFillKeepsOwned(l: Layout, rx: RxSide, n: nat)
    requires IsPow2(l.frameSize) && n <= |rx.fill|
    ensures RxOwned(l, TookFill(rx, n)) == RxOwned(l, rx)
  {
    assert rx.fill == rx.fill[..n] + rx.fill[n..];
  }

  lemma KernelReceivesKeepsOwned(l: Layout, rx: RxSide, k: nat, desc: XdpDesc)
    requires IsPow2(l.frameSize) && k < |rx.dma| && FrameBase(desc.addr, l.frameSize) == rx.dma[k]
    ensures RxOwned(l, rx.(dma := Without(rx.dma, k), ring := rx.ring + [desc])) == RxOwned(l, rx)
  {
    WithoutRemovesOne(rx.dma, k);
    BasesOfAppend(l, rx.ring, [desc]);
    assert DescBases(l, [desc]) == [rx.dma[k]];
  }

  lemma ReplenishKeepsOwned(l: Layout, rx: RxSide, room: nat)
    requires IsPow2(l.frameSize)
    ensures RxOwned(l, Replenished(rx, room)) == RxOwned(l, rx)
  {
    var scratch := rx.pool.free + rx.pool.remote;
    var written := Min(|scratch|, room);
    assert scratch == scratch[..written] + scratch[written..];
    assert multiset(scratch) == rx.pool.Frames();
  }

  lemma {:induction false} InUmemKeepsAll(l: Layout, frames: seq<nat>)
    requires forall k :: 0 <= k < |frames| ==> frames[k] < l.umemLen
    ensures InUmem(l, frames) == frames
  {
    if frames != [] { InUmemKeepsAll(l, frames[1..]); }
  }

  /** The receive loop loses no frame and duplicates none, on its error path too. */
  lemma {:induction false} ReceiveConserves(l: Layout, m: nat, descs: seq<XdpDesc>, deliver: seq<bool>, pool: Pool,
                                            live: seq<Buffer>)
    requires IsPow2(l.frameSize) && |deliver| == |descs|
    requires forall k :: 0 <= k < |descs| ==> FrameBase(descs[k].addr, l.frameSize) < l.umemLen
    ensures var r := Receive(l, m, descs, deliver, pool, live);
      r.pool.Frames() + multiset(BufferFrames(r.live))
      == pool.Frames() + multiset(BufferFrames(live)) + multiset(DescBases(l, descs))
    decreases |descs|
  {
    var b := DescBases(l, descs);
    if descs == [] {
    } else {
      assert b == [b[0]] + b[1..] && b[1..] == DescBases(l, descs[1..]);
      if CrossesFrame(l, descs[0]) {
        InUmemKeepsAll(l, b);
      } else if deliver[0] {
        var live' := live + [Buffer(b[0], m, true)];
        FramesOfAppend(live, [Buffer(b[0], m, true)]);
        assert BufferFrames([Buffer(b[0], m, true)]) == [b[0]];
        ReceiveConserves(l, m, descs[1..], deliver[1..], pool, live');
      } else {
        ReceiveConserves(l, m, descs[1..], deliver[1..], pool.PushOwner(b[0]), live);
      }
    }
  }

  ghost predicate BuffersOk(l: Layout, members: nat, live: seq<Buffer>)
  {
    forall k :: 0 <= k < |live| ==> BufferOk(l, members, live[k])
  }

  /** Buffers that were live stay; each new one holds a received frame. */
  lemma {:induction false} ReceiveBuffersOk(l: Layout, members: nat, m: nat, descs: seq<XdpDesc>, deliver: seq<bool>,
                                            pool: Pool, live: seq<Buffer>)
    requires IsPow2(l.frameSize) && |deliver| == |descs| && m < members
    requires forall k :: 0 <= k < |descs| ==> l.reclaim.IsRx(FrameBase(descs[k].addr, l.frameSize))
    requires BuffersOk(l, members, live)
    ensures BuffersOk(l, members, Receive(l, m, descs, deliver, pool, live).live)
    ensures live <= Receive(l, m, descs, deliver, pool, live).live
    decreases |descs|
  {
    if descs == [] {
    } else if CrossesFrame(l, descs[0]) {
    } else {
      var base := FrameBase(descs[0].addr, l.frameSize);
      if deliver[0] {
        ReceiveBuffersOk(l, members, m, descs[1..], deliver[1..], pool, live + [Buffer(base, m, true)]);
      } else {
        ReceiveBuffersOk(l, members, m, descs[1..], deliver[1..], pool.PushOwner(base), live);
      }
    }
  }

  /** The receive side only ever loses frames to live buffers. */
  lemma ReceiveEffect(l: Layout, members: nat, m: nat, rx: RxSide, count: nat, deliver: seq<bool>, live: seq<Buffer>)
    requires IsPow2(l.frameSize) && m < members && count == |deliver| <= |rx.ring|
    requires RxHolds(l, RxOwned(l, rx)) && BuffersOk(l, members, live)
    ensures var r := Receive(l, m, rx.ring[..count], deliver, rx.pool, live);
      var rx1 := rx.(ring := rx.ring[count..], pool := r.pool);
      && RxOwned(l, rx1) + multiset(BufferFrames(r.live)) == RxOwned(l, rx) + multiset(BufferFrames(live))
      && RxOwned(l, rx1) <= RxOwned(l, rx)
      && BuffersOk(l, members, r.live)
  {
    var descs, rest := rx.ring[..count], rx.ring[count..];
    forall k | 0 <= k < |descs|
      ensures FrameBase(descs[k].addr, l.frameSize) < l.umemLen && l.reclaim.IsRx(FrameBase(descs[k].addr, l.frameSize))
    {
      OnRingIsHeld(l, rx, k);
    }
    var r := Receive(l, m, descs, deliver, rx.pool, live);
    ReceiveConserves(l, m, descs, deliver, rx.pool, live);
    ReceiveBuffersOk(l, members, m, descs, deliver, rx.pool, live);
    PrefixFrames(live, r.live);
    RxRearranged(l, rx, count, r.pool);
    RxAlgebra(RxOwned(l, rx.(ring := rest, pool := r.pool)), RxOwned(l, rx), r.pool.Frames(), rx.pool.Frames(),
              multiset(DescBases(l, descs)), multiset(BufferFrames(r.live)), multiset(BufferFrames(live)));
  }

  lemma OnRingIsHeld(l: Layout, rx: RxSide, k: nat)
    requires IsPow2(l.frameSize) && k < |rx.ring|
    ensures FrameBase(rx.ring[k].addr, l.frameSize) in RxOwned(l, rx)
  {
    assert DescBases(l, rx.ring)[k] in multiset(DescBases(l, rx.ring));
  }

  lemma PrefixFrames(a: seq<Buffer>, b: seq<Buffer>)
    requires a <= b
    ensures multiset(BufferFrames(a)) <= multiset(BufferFrames(b))
  {
    assert b == a + b[|a|..];
    FramesOfAppend(a, b[|a|..]);
  }

  lemma RxAlgebra(o1: multiset<nat>, o: multiset<nat>, p1: multiset<nat>, p: multiset<nat>, b: multiset<nat>,
                  live1: multiset<nat>, live: multiset<nat>)
    requires o1 + p + b == o + p1 && p1 + live1 == p + live + b && live <= live1
    ensures o1 + live1 == o + live && o1 <= o
  {
    forall x
      ensures (o1 + live1)[x] == (o + live)[x] && o1[x] <= o[x]
    {
      assert (o1 + p + b)[x] == (o + p1)[x];
      assert (p1 + live1)[x] == (p + live + b)[x];
    }
  }

  /** Taking descriptors off the ring and frames through the pool. */
  lemma RxRearranged(l: Layout, rx: RxSide, count: nat, pool: Pool)
    requires IsPow2(l.frameSize) && count <= |rx.ring|
    ensures RxOwned(l, rx.(ring := rx.ring[count..], pool := pool)) + rx.pool.Frames()
      + multiset(DescBases(l, rx.ring[..count]))
         == RxOwned(l, rx) + pool.Frames()
  {
    BasesOfAppend(l, rx.ring[..count], rx.ring[count..]);
    assert rx.ring == rx.ring[..count] + rx.ring[count..];
  }

  // ---------------------------------------------------------------- transmit side

  lemma NewBuffersFrames(frames: seq<nat>, m: nat)
    ensures BufferFrames(NewBuffers(frames, m)) == frames
  {
  }

  lemma EndpointDescsBases(l: Layout, frames: seq<nat>, offset: nat, lens: seq<nat>)
    requires IsPow2(l.frameSize) && |lens| >= |frames| && offset < l.frameSize
    requires forall k :: 0 <= k < |frames| ==> FrameBase(frames[k], l.frameSize) == frames[k]
    ensures DescBases(l, EndpointDescs(frames, offset, lens)) == frames
  {
    forall k | 0 <= k < |frames|
      ensures FrameBase(frames[k] + offset, l.frameSize) == frames[k]
    {
      FrameBaseOfOffset(frames[k], offset, l.frameSize);
    }
  }

  /** An offset below the frame size stays in the frame of an aligned address. */
  lemma FrameBaseOfOffset(frame: nat, offset: nat, frameSize: nat)
    requires IsPow2(frameSize) && offset < frameSize && FrameBase(frame, frameSize) == frame
    ensures FrameBase(frame + offset, frameSize) == frame
  {
    hide IsPow2, And;
    AndNotRoundsDown(frame, frameSize);
    var q := frame / frameSize;
    assert frame == q * frameSize;
    FrameBaseOfByte(q, offset, frameSize);
  }

  lemma CompletionIsHeld(l: Layout, tx: TxSide, k: nat)
    requires IsPow2(l.frameSize) && k < |tx.completions|
    ensures FrameBase(tx.completions[k], l.frameSize) in TxOwned(l, tx)
  {
    assert Bases(tx.completions, l.frameSize)[k] in multiset(Bases(tx.completions, l.frameSize));
  }

  /** Draining: what leaves the COMPLETION ring enters the two free lists, each
      frame the list of its class, and no completion is ever rejected. */
  lemma DrainEffect(l: Layout, before: Member, max: nat)
    requires IsPow2(l.frameSize)
    requires forall f :: f in TxOwned(l, before.tx) ==> !l.reclaim.Rejects(f, l.umemLen)
    requires before.tx.inFlight == |before.tx.ring| + |before.tx.completions|
    ensures var after := Drained(l, before, max); var count := Min(max, |before.tx.completions|);
      var b := Bases(before.tx.completions[..count], l.frameSize);
      && DrainResult(l, before, max).ok
      && after.rx == before.rx.(pool := PushAll(before.rx.pool, OfClass(l.reclaim, b, true)))
      && after.tx == TxSide(before.tx.ring, before.tx.completions[count..],
                            PushAll(before.tx.pool, OfClass(l.reclaim, b, false)), before.tx.inFlight - count)
  {
    var count := Min(max, |before.tx.completions|);
    var b := Bases(before.tx.completions[..count], l.frameSize);
    forall k | 0 <= k < |b|
      ensures !l.reclaim.Rejects(b[k], l.umemLen)
    {
      CompletionIsHeld(l, before.tx, k);
    }
    ReclaimAllSplits(l.reclaim, l.umemLen, b, before.rx.pool.free, before.tx.pool.free);
  }

  lemma RxPoolGrows(l: Layout, rx: RxSide, extra: seq<nat>)
    requires IsPow2(l.frameSize)
    ensures RxOwned(l, rx.(pool := PushAll(rx.pool, extra))) == RxOwned(l, rx) + multiset(extra)
  {
    assert PushAll(rx.pool, extra).Frames() == rx.pool.Frames() + multiset(extra);
  }

  lemma TxDrains(l: Layout, tx: TxSide, count: nat, extra: seq<nat>, inFlight: nat)
    requires IsPow2(l.frameSize) && count <= |tx.completions|
    ensures TxOwned(l, TxSide(tx.ring, tx.completions[count..], PushAll(tx.pool, extra), inFlight))
      + multiset(Bases(tx.completions[..count], l.frameSize))
         == TxOwned(l, tx) + multiset(extra)
  {
    var head, rest := tx.completions[..count], tx.completions[count..];
    BasesAppend(head, rest, l.frameSize);
    assert tx.completions == head + rest;
    assert PushAll(tx.pool, extra).Frames() == tx.pool.Frames() + multiset(extra);
  }

  lemma DrainKeepsOwned(l: Layout, before: Member, max: nat)
    requires IsPow2(l.frameSize)
    requires forall f :: f in TxOwned(l, before.tx) ==> !l.reclaim.Rejects(f, l.umemLen)
    requires before.tx.inFlight == |before.tx.ring| + |before.tx.completions|
    ensures Owned(l, Drained(l, before, max)) == Owned(l, before)
  {
    DrainEffect(l, before, max);
    var after := Drained(l, before, max);
    var count := Min(max, |before.tx.completions|);
    var b := Bases(before.tx.completions[..count], l.frameSize);
    var r, t := OfClass(l.reclaim, b, true), OfClass(l.reclaim, b, false);
    OfClassConserves(l.reclaim, b);
    RxPoolGrows(l, before.rx, r);
    TxDrains(l, before.tx, count, t, after.tx.inFlight);
    DrainAlgebra(RxOwned(l, after.rx), RxOwned(l, before.rx), TxOwned(l, after.tx), TxOwned(l, before.tx), multiset(r),
                 multiset(t), multiset(b));
  }

  lemma DrainAlgebra(rx1: multiset<nat>, rx: multiset<nat>, tx1: multiset<nat>, tx: multiset<nat>, r: multiset<nat>,
                     t: multiset<nat>, b: multiset<nat>)
    requires rx1 == rx + r && tx1 + b == tx + t && r + t == b
    ensures rx1 + tx1 == rx + tx
  {
    forall x
      ensures (rx1 + tx1)[x] == (rx + tx)[x]
    {
      assert (tx1 + b)[x] == (tx + t)[x];
    }
  }

  lemma DrainKeepsMemberOk(l: Layout, before: Member, max: nat)
    requires IsPow2(l.frameSize) && MemberOk(l, before)
    requires forall f :: f in TxOwned(l, before.tx) ==> !l.reclaim.Rejects(f, l.umemLen)
    ensures MemberOk(l, Drained(l, before, max))
  {
    DrainEffect(l, before, max);
    var b := Bases(before.tx.completions[..Min(max, |before.tx.completions|)], l.frameSize);
    OfClassMembers(l.reclaim, b, true);
    OfClassMembers(l.reclaim, b, false);
    RxPoolGrows(l, before.rx, OfClass(l.reclaim, b, true));
  }

  // ---------------------------------------------------------------- one step

  /** A step of the receive side. */
  lemma RxStep(l: Layout, s: State, m: nat, rx: RxSide, live: seq<Buffer>)
    requires Inv(l, s) && m < |s.members|
    requires RxOwned(l, rx) + multiset(BufferFrames(live)) == RxOwned(l, s.members[m].rx)
      + multiset(BufferFrames(s.live))
    requires forall f :: f in RxOwned(l, rx) ==> l.reclaim.IsRx(f)
    requires BuffersOk(l, |s.members|, live)
    ensures Inv(l, WithRx(s, m, rx).(live := live))
  {
    var member := s.members[m];
    assert MemberOk(l, member);
    SwapPart(RxOwned(l, rx), RxOwned(l, member.rx), TxOwned(l, member.tx), multiset(BufferFrames(live)),
             multiset(BufferFrames(s.live)));
    InvRestored(l, s, m, member.(rx := rx), live);
  }

  lemma SwapPart(a': multiset<nat>, a: multiset<nat>, other: multiset<nat>, b': multiset<nat>, b: multiset<nat>)
    requires a' + b' == a + b
    ensures (a' + other) + b' == (a + other) + b
    ensures (other + a') + b' == (other + a) + b
  {
    forall x
      ensures ((a' + other) + b')[x] == ((a + other) + b)[x] && ((other + a') + b')[x] == ((other + a) + b)[x]
    {
      assert (a' + b')[x] == (a + b)[x];
    }
  }

  /** A step of the transmit side. */
  lemma TxStep(l: Layout, s: State, m: nat, tx: TxSide, live: seq<Buffer>)
    requires Inv(l, s) && m < |s.members|
    requires TxOwned(l, tx) + multiset(BufferFrames(live)) == TxOwned(l, s.members[m].tx)
      + multiset(BufferFrames(s.live))
    requires forall f :: f in tx.pool.Frames() ==> !l.reclaim.IsRx(f)
    requires tx.inFlight == |tx.ring| + |tx.completions|
    requires BuffersOk(l, |s.members|, live)
    ensures Inv(l, WithTx(s, m, tx).(live := live))
  {
    var member := s.members[m];
    assert MemberOk(l, member);
    SwapPart(TxOwned(l, tx), TxOwned(l, member.tx), RxOwned(l, member.rx), multiset(BufferFrames(live)),
             multiset(BufferFrames(s.live)));
    InvRestored(l, s, m, member.(tx := tx), live);
  }

  lemma KernelRxKeepsInv(l: Layout, s: State, step: Step)
    requires Inv(l, s) && Enabled(l, s, step) && (step.KernelTakesFill? || step.KernelReceives? || step.Replenish?)
    ensures Inv(l, Next(l, s, step))
  {
    hide EachInOnePlace;
    var m := step.m;
    var rx := s.members[m].rx;
    assert MemberOk(l, s.members[m]);
    match step
    case KernelTakesFill(_) =>
      TakeFillKeepsOwned(l, rx);
      RxStep(l, s, m, rx.(fill := rx.fill[1..], dma := rx.dma + [rx.fill[0]]), s.live);
    case KernelReceives(_, k, desc) =>
      KernelReceivesKeepsOwned(l, rx, k, desc);
      RxStep(l, s, m, rx.(dma := Without(rx.dma, k), ring := rx.ring + [desc]), s.live);
    case Replenish(_) =>
      ReplenishKeepsOwned(l, rx, Room(l, rx));
      RxStep(l, s, m, Refilled(l, rx), s.live);
  }

  lemma RecvKeepsInv(l: Layout, s: State, step: Step)
    requires Inv(l, s) && Enabled(l, s, step) && step.Recv?
    ensures Inv(l, Next(l, s, step))
  {
    hide EachInOnePlace;
    var m, count := step.m, step.count;
    var rx0 := s.members[m].rx;
    var rx := Refilled(l, rx0);
    ReplenishKeepsOwned(l, rx0, Room(l, rx0));
    RxHeldIsActive(l, s, m);
    ReceiveEffect(l, |s.members|, m, rx, count, step.deliver, s.live);
    var r := Receive(l, m, rx.ring[..count], step.deliver, rx.pool, s.live);
    var rx1 := rx.(ring := rx.ring[count..], pool := r.pool);
    var rx2 := TookFill(rx1, step.meanwhile);
    TookFillKeepsOwned(l, rx1, step.meanwhile);
    ReplenishKeepsOwned(l, rx2, Room(l, rx2));
    RxStep(l, s, m, if r.ok && count > 0 then Refilled(l, rx2) else rx2, r.live);
  }

  /** Frames that move from a live buffer into a part, and the other way round. */
  lemma MoveIn(a': multiset<nat>, a: multiset<nat>, x: multiset<nat>, b': multiset<nat>, b: multiset<nat>)
    requires a' == a + x && b' + x == b
    ensures a' + b' == a + b
  {
  }

  lemma MoveOut(a': multiset<nat>, a: multiset<nat>, x: multiset<nat>, b': multiset<nat>, b: multiset<nat>)
    requires a' + x == a && b' == b + x
    ensures a' + b' == a + b
  {
  }

  function Returned(pool: Pool, frame: nat, onOwner: bool): (r: Pool)
    ensures r.Frames() == pool.Frames() + multiset{frame}
  {
    if onOwner then pool.PushOwner(frame) else pool.PushRemote(frame)
  }

  lemma RxPoolGains(l: Layout, rx: RxSide, frame: nat, onOwner: bool)
    requires IsPow2(l.frameSize)
    ensures RxOwned(l, rx.(pool := Returned(rx.pool, frame, onOwner))) == RxOwned(l, rx) + multiset{frame}
  {
  }

  lemma TxPoolGains(l: Layout, tx: TxSide, frame: nat, onOwner: bool)
    requires IsPow2(l.frameSize)
    ensures TxOwned(l, tx.(pool := Returned(tx.pool, frame, onOwner))) == TxOwned(l, tx) + multiset{frame}
  {
  }

  lemma TxTakes(l: Layout, tx: TxSide, max: nat)
    requires IsPow2(l.frameSize)
    ensures var (pool, taken) := tx.pool.PopMany(max);
      && TxOwned(l, tx.(pool := pool)) + multiset(taken) == TxOwned(l, tx)
      && pool.Frames() <= tx.pool.Frames()
  {
    PopManyConserves(tx.pool, max);
  }

  lemma TxSubmits(l: Layout, tx: TxSide, descs: seq<XdpDesc>)
    requires IsPow2(l.frameSize)
    ensures TxOwned(l, tx.(ring := tx.ring + descs, inFlight := tx.inFlight + |descs|)) == TxOwned(l, tx)
      + multiset(DescBases(l, descs))
  {
    BasesOfAppend(l, tx.ring, descs);
  }

  lemma WithoutStaysOk(l: Layout, members: nat, live: seq<Buffer>, i: nat)
    requires BuffersOk(l, members, live) && i < |live|
    ensures BuffersOk(l, members, Without(live, i))
  {
  }

  lemma DropRxKeepsInv(l: Layout, s: State, i: nat, onOwner: bool)
    requires Inv(l, s) && i < |s.live| && s.live[i].owner < |s.members| && s.live[i].fromRx
    ensures Inv(l, Dropped(s, i, onOwner))
  {
    hide EachInOnePlace;
    var b := s.live[i];
    var rx := s.members[b.owner].rx;
    assert MemberOk(l, s.members[b.owner]) && BufferOk(l, |s.members|, b);
    FramesOfWithout(s.live, i);
    WithoutStaysOk(l, |s.members|, s.live, i);
    RxPoolGains(l, rx, b.frame, onOwner);
    var rx' := rx.(pool := Returned(rx.pool, b.frame, onOwner));
    MoveIn(RxOwned(l, rx'), RxOwned(l, rx), multiset{b.frame}, multiset(BufferFrames(Without(s.live, i))),
           multiset(BufferFrames(s.live)));
    RxStep(l, s, b.owner, rx', Without(s.live, i));
  }

  lemma DropTxKeepsInv(l: Layout, s: State, i: nat, onOwner: bool)
    requires Inv(l, s) && i < |s.live| && s.live[i].owner < |s.members| && !s.live[i].fromRx
    ensures Inv(l, Dropped(s, i, onOwner))
  {
    hide EachInOnePlace;
    var b := s.live[i];
    var tx := s.members[b.owner].tx;
    assert MemberOk(l, s.members[b.owner]) && BufferOk(l, |s.members|, b);
    FramesOfWithout(s.live, i);
    WithoutStaysOk(l, |s.members|, s.live, i);
    TxPoolGains(l, tx, b.frame, onOwner);
    var tx' := tx.(pool := Returned(tx.pool, b.frame, onOwner));
    MoveIn(TxOwned(l, tx'), TxOwned(l, tx), multiset{b.frame}, multiset(BufferFrames(Without(s.live, i))),
           multiset(BufferFrames(s.live)));
    TxStep(l, s, b.owner, tx', Without(s.live, i));
  }

  lemma DropKeepsInv(l: Layout, s: State, i: nat, onOwner: bool)
    requires Inv(l, s) && i < |s.live| && s.live[i].owner < |s.members|
    ensures Inv(l, Dropped(s, i, onOwner))
  {
    if s.live[i].fromRx { DropRxKeepsInv(l, s, i, onOwner); } else { DropTxKeepsInv(l, s, i, onOwner); }
  }

  lemma AllocateMoves(l: Layout, members: nat, m: nat, tx: TxSide, live: seq<Buffer>, max: nat)
    requires IsPow2(l.frameSize) && m < members && BuffersOk(l, members, live)
    requires forall f :: f in tx.pool.Frames() ==> !l.reclaim.IsRx(f)
    ensures var (pool, taken) := tx.pool.PopMany(max);
      && TxOwned(l, tx.(pool := pool)) + multiset(BufferFrames(live + NewBuffers(taken, m))) == TxOwned(l, tx)
         + multiset(BufferFrames(live))
      && (forall f :: f in pool.Frames() ==> !l.reclaim.IsRx(f))
      && BuffersOk(l, members, live + NewBuffers(taken, m))
  {
    var (pool, taken) := tx.pool.PopMany(max);
    TxTakes(l, tx, max);
    TakenIsTx(l, tx.pool, max);
    NewBuffersFrames(taken, m);
    FramesOfAppend(live, NewBuffers(taken, m));
    MoveOut(TxOwned(l, tx.(pool := pool)), TxOwned(l, tx), multiset(taken),
            multiset(BufferFrames(live + NewBuffers(taken, m))), multiset(BufferFrames(live)));
  }

  lemma AllocateKeepsInv(l: Layout, s: State, step: Step)
    requires Inv(l, s) && Enabled(l, s, step) && step.Allocate?
    ensures Inv(l, Next(l, s, step))
  {
    hide EachInOnePlace;
    var tx := s.members[step.m].tx;
    assert MemberOk(l, s.members[step.m]);
    AllocateMoves(l, |s.members|, step.m, tx, s.live, step.max);
    var (pool, taken) := tx.pool.PopMany(step.max);
    TxStep(l, s, step.m, tx.(pool := pool), s.live + NewBuffers(taken, step.m));
  }

  lemma TakenIsTx(l: Layout, pool: Pool, max: nat)
    requires forall f :: f in pool.Frames() ==> !l.reclaim.IsRx(f)
    ensures forall k :: 0 <= k < |pool.PopMany(max).1| ==> !l.reclaim.IsRx(pool.PopMany(max).1[k])
  {
    PopManyConserves(pool, max);
    var taken := pool.PopMany(max).1;
    forall k | 0 <= k < |taken|
      ensures !l.reclaim.IsRx(taken[k])
    {
      assert taken[k] in multiset(taken);
    }
  }

  lemma SubmitMoves(l: Layout, tx: TxSide, live: seq<Buffer>, i: nat, desc: XdpDesc)
    requires IsPow2(l.frameSize) && i < |live| && FrameBase(desc.addr, l.frameSize) == live[i].frame
    ensures TxOwned(l, tx.(ring := tx.ring + [desc], inFlight := tx.inFlight + 1))
      + multiset(BufferFrames(Without(live, i)))
         == TxOwned(l, tx) + multiset(BufferFrames(live))
  {
    FramesOfWithout(live, i);
    TxSubmits(l, tx, [desc]);
    assert DescBases(l, [desc]) == [live[i].frame];
    MoveIn(TxOwned(l, tx.(ring := tx.ring + [desc], inFlight := tx.inFlight + 1)), TxOwned(l, tx),
           multiset{live[i].frame},
           multiset(BufferFrames(Without(live, i))), multiset(BufferFrames(live)));
  }

  lemma SendBufferKeepsInv(l: Layout, s: State, step: Step)
    requires Inv(l, s) && Enabled(l, s, step) && step.SendBuffer?
    ensures Inv(l, Next(l, s, step))
  {
    hide EachInOnePlace, TxOwned, RxOwned;
    var tx := s.members[step.m].tx;
    assert MemberOk(l, s.members[step.m]);
    WithoutStaysOk(l, |s.members|, s.live, step.i);
    SubmitMoves(l, tx, s.live, step.i, step.desc);
    var tx' := tx.(ring := tx.ring + [step.desc], inFlight := tx.inFlight + 1);
    TxStep(l, s, step.m, tx', Without(s.live, step.i));
  }

  /** Frames straight from the pool to the TX ring. */
  lemma TxSendsOwn(l: Layout, tx: TxSide, max: nat, offset: nat, lens: seq<nat>)
    requires IsPow2(l.frameSize) && |lens| == max && offset < l.frameSize
    requires forall f :: f in tx.pool.Frames() ==> FrameBase(f, l.frameSize) == f
    ensures var (pool, taken) := tx.pool.PopMany(max);
      TxOwned(l,
              tx.(pool := pool, ring := tx.ring + EndpointDescs(taken, offset, lens),
                  inFlight := tx.inFlight + |taken|)) == TxOwned(l, tx)
  {
    var (pool, taken) := tx.pool.PopMany(max);
    PopManyConserves(tx.pool, max);
    forall k | 0 <= k < |taken|
      ensures FrameBase(taken[k], l.frameSize) == taken[k]
    {
      assert taken[k] in multiset(taken);
    }
    EndpointDescsBases(l, taken, offset, lens);
    TxTakes(l, tx, max);
    TxSubmits(l, tx.(pool := pool), EndpointDescs(taken, offset, lens));
  }

  lemma SendEndpointKeepsInv(l: Layout, s: State, step: Step)
    requires Inv(l, s) && Enabled(l, s, step) && step.SendEndpoint?
    ensures Inv(l, Next(l, s, step))
  {
    hide EachInOnePlace, TxOwned, RxOwned, MemberOk;
    var tx := s.members[step.m].tx;
    PoolIsAligned(l, s, step.m);
    TxSendsOwn(l, tx, step.max, step.offset, step.lens);
    TakeKeepsClass(l, s.members[step.m], step.max);
    var (pool, taken) := tx.pool.PopMany(step.max);
    var tx' := tx.(pool := pool, ring := tx.ring + EndpointDescs(taken, step.offset, step.lens),
                   inFlight := tx.inFlight + |taken|);
    TxStep(l, s, step.m, tx', s.live);
  }

  lemma TakeKeepsClass(l: Layout, member: Member, max: nat)
    requires IsPow2(l.frameSize) && MemberOk(l, member)
    ensures forall f :: f in member.tx.pool.PopMany(max).0.Frames() ==> !l.reclaim.IsRx(f)
    ensures member.tx.inFlight == |member.tx.ring| + |member.tx.completions|
  {
    PopManyConserves(member.tx.pool, max);
  }

  lemma PoolIsAligned(l: Layout, s: State, m: nat)
    requires Inv(l, s) && m < |s.members|
    ensures forall f :: f in s.members[m].tx.pool.Frames() ==> FrameBase(f, l.frameSize) == f
  {
    HeldIsActive(l, s, m);
    forall f | f in s.members[m].tx.pool.Frames()
      ensures FrameBase(f, l.frameSize) == f
    {
      assert f in Owned(l, s.members[m]);
    }
  }

  lemma EndpointFailsKeepsInv(l: Layout, s: State, step: Step)
    requires Inv(l, s) && Enabled(l, s, step) && step.EndpointFails?
    ensures Inv(l, Next(l, s, step))
  {
    hide EachInOnePlace;
    var tx := s.members[step.m].tx;
    assert MemberOk(l, s.members[step.m]);
    assert tx.pool.Drained().Frames() == tx.pool.Frames();
    TxStep(l, s, step.m, tx.(pool := if |tx.pool.free| < step.max then tx.pool.Drained() else tx.pool), s.live);
  }

  lemma CompleteKeepsOwned(l: Layout, tx: TxSide, k: nat, addr: nat)
    requires IsPow2(l.frameSize) && k < |tx.ring|
    requires FrameBase(addr, l.frameSize) == FrameBase(tx.ring[k].addr, l.frameSize)
    ensures TxOwned(l, tx.(ring := Without(tx.ring, k), completions := tx.completions + [addr])) == TxOwned(l, tx)
  {
    BasesOfWithout(l, tx.ring, k);
    WithoutRemovesOne(DescBases(l, tx.ring), k);
    BasesAppend(tx.completions, [addr], l.frameSize);
    assert Bases([addr], l.frameSize) == [DescBases(l, tx.ring)[k]];
  }

  lemma CompleteKeepsInv(l: Layout, s: State, step: Step)
    requires Inv(l, s) && Enabled(l, s, step) && step.KernelCompletes?
    ensures Inv(l, Next(l, s, step))
  {
    hide EachInOnePlace, TxOwned, RxOwned;
    var tx := s.members[step.m].tx;
    assert MemberOk(l, s.members[step.m]);
    CompleteKeepsOwned(l, tx, step.k, step.addr);
    TxStep(l, s, step.m, tx.(ring := Without(tx.ring, step.k), completions := tx.completions + [step.addr]), s.live);
  }

  lemma TxHeldIsActive(l: Layout, s: State, i: nat)
    requires Inv(l, s) && i < |s.members|
    ensures forall f :: f in TxOwned(l, s.members[i].tx) ==> !l.reclaim.Rejects(f, l.umemLen)
  {
    HeldIsActive(l, s, i);
    forall f | f in TxOwned(l, s.members[i].tx)
      ensures !l.reclaim.Rejects(f, l.umemLen)
    {
      assert f in Owned(l, s.members[i]);
    }
  }

  lemma DrainKeepsInv(l: Layout, s: State, step: Step)
    requires Inv(l, s) && Enabled(l, s, step) && step.DrainCompletions?
    ensures Inv(l, Next(l, s, step))
  {
    hide EachInOnePlace;
    var member := s.members[step.m];
    assert MemberOk(l, member);
    TxHeldIsActive(l, s, step.m);
    DrainKeepsOwned(l, member, step.max);
    DrainKeepsMemberOk(l, member, step.max);
    InvRestored(l, s, step.m, Drained(l, member, step.max), s.live);
  }

  /** Every step of every actor keeps the invariant. */
  lemma StepKeepsInv(l: Layout, s: State, step: Step)
    requires Inv(l, s) && Enabled(l, s, step)
    ensures Inv(l, Next(l, s, step))
  {
    hide EachInOnePlace;
    match step
    case KernelTakesFill(_) => KernelRxKeepsInv(l, s, step);
    case KernelReceives(_, _, _) => KernelRxKeepsInv(l, s, step);
    case Replenish(_) => KernelRxKeepsInv(l, s, step);
    case Recv(_, _, _, _) => RecvKeepsInv(l, s, step);
    case DropOnOwner(i) => DropKeepsInv(l, s, i, true);
    case DropOnOtherThread(i) => DropKeepsInv(l, s, i, false);
    case Allocate(_, _) => AllocateKeepsInv(l, s, step);
    case SendBuffer(_, _, _) => SendBufferKeepsInv(l, s, step);
    case SendEndpoint(_, _, _, _) => SendEndpointKeepsInv(l, s, step);
    case EndpointFails(_, _) => EndpointFailsKeepsInv(l, s, step);
    case KernelCompletes(_, _, _) => CompleteKeepsInv(l, s, step);
    case DrainCompletions(_, _) => DrainKeepsInv(l, s, step);
  }
}
