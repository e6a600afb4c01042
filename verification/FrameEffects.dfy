/** Where the frames go in each operation of the owning thread, said on the fields of the state before and
    after: what leaves one place, in which order it enters the next, and what stays as it was. */
module FrameEffects {
  import opened Bits
  import opened Wrappers
  import opened Umem
  import opened FrameReclaim
  import opened FrameProtocol
  import opened FrameRuns
  import opened WireFormat
  import Egress

  // ---------------------------------------------------------------- pools

  /** A pool hands out what was freed last, first; the queue joins the free list, oldest
      first, exactly when the free list alone is too short. */
  lemma PopsLastFreed(p: Pool, max: nat)
    ensures var (q, taken) := p.PopMany(max);
      var all := if max <= |p.free| then p.free else p.free + p.remote;
      && |taken| == Min(max, |all|)
      && q.free == all[..|all| - |taken|]
      && q.remote == (if max <= |p.free| then p.remote else [])
      && forall k :: 0 <= k < |taken| ==> taken[k] == all[|all| - 1 - k]
  {
  }

  /** What was pushed last on the owner's thread is what the next pop returns, and the pool is as before. */
  lemma PushThenPop(p: Pool, frame: nat)
    ensures p.PushOwner(frame).PopMany(1) == (p, [frame])
  {
    var q := p.PushOwner(frame);
    PopsLastFreed(q, 1);
    assert q.free[..|p.free|] == p.free && q.PopMany(1).1 == [frame];
  }

  // ---------------------------------------------------------------- refill

  /** A refill, on the two ends: the FILL ring grows behind its old entries by the first
      frames of the free list followed by the queue, as many as there are and fit; the
      others are the free list, and the queue is empty. */
  predicate RefillMoves(fillSize: nat, before: RxSide, after: RxSide)
    requires |before.fill| <= fillSize
  {
    && before.fill <= after.fill
    && |after.fill| - |before.fill| == Min(|before.pool.free| + |before.pool.remote|, fillSize - |before.fill|)
    && after.fill[|before.fill|..] + after.pool.free == before.pool.free + before.pool.remote
    && after.pool.remote == []
    && after.dma == before.dma && after.ring == before.ring
  }

  /** Nothing reclaimed is left behind unless the FILL ring is full. */
  predicate FullyRefilled(fillSize: nat, rx: RxSide)
  {
    rx.pool.remote == [] && (rx.pool.free == [] || |rx.fill| == fillSize)
  }

  lemma RefillExact(l: Layout, rx: RxSide)
    requires |rx.fill| <= l.fillSize
    ensures RefillMoves(l.fillSize, rx, Refilled(l, rx)) && FullyRefilled(l.fillSize, Refilled(l, rx))
  {
    var scratch := rx.pool.free + rx.pool.remote;
    var written := Min(|scratch|, l.fillSize - |rx.fill|);
    assert scratch[..written] + scratch[written..] == scratch;
  }

  // ---------------------------------------------------------------- receive

  /** The items flagged with `want`, in order. */
  function Kept<T>(s: seq<T>, flags: seq<bool>, want: bool): (r: seq<T>)
    requires |s| == |flags|
  {
    if s == [] then [] else (if flags[0] == want then [s[0]] else []) + Kept(s[1..], flags[1..], want)
  }

  /** A received descriptor lies in one frame of the UMEM. */
  predicate InOneFrame(l: Layout, desc: XdpDesc)
    requires l.frameSize > 0
  {
    && desc.addr / l.frameSize * l.frameSize < l.umemLen
    && desc.addr % l.frameSize + desc.len <= l.frameSize
  }

  /** The first `n` descriptors lie in one frame each and the next one, if any, does not. */
  predicate GoodUpTo(l: Layout, descs: seq<XdpDesc>, n: nat)
    requires l.frameSize > 0
  {
    && n <= |descs|
    && (forall k :: 0 <= k < n ==> InOneFrame(l, descs[k]))
    && (n < |descs| ==> !InOneFrame(l, descs[n]))
  }

  lemma FrameBaseIsMultiple(addr: nat, frameSize: nat)
    requires IsPow2(frameSize)
    ensures FrameBase(addr, frameSize) == addr / frameSize * frameSize
    ensures addr - FrameBase(addr, frameSize) == addr % frameSize
  {
    hide IsPow2, AndNot;
    AndNotRoundsDown(addr, frameSize);
  }

  lemma CrossesIff(l: Layout, desc: XdpDesc)
    requires IsPow2(l.frameSize)
    ensures CrossesFrame(l, desc) <==> !InOneFrame(l, desc)
  {
    FrameBaseIsMultiple(desc.addr, l.frameSize);
  }

  /** Up to the first malformed descriptor the delivered frames become live buffers and the
      others join the free list, both in ring order; from there on every frame of the UMEM joins
      the free list.  The call fails exactly when there is a malformed one. */
  lemma {:induction false} ReceiveExact(l: Layout, m: nat, descs: seq<XdpDesc>, deliver: seq<bool>, pool: Pool,
                                        live: seq<Buffer>, n: nat)
    requires IsPow2(l.frameSize) && |deliver| == |descs| && GoodUpTo(l, descs, n)
    ensures var r := Receive(l, m, descs, deliver, pool, live); var frames := DescBases(l, descs);
      && r.ok == (n == |descs|)
      && r.live == live + RxBuffers(Kept(frames[..n], deliver[..n], true), m)
      && r.pool.free == pool.free + Kept(frames[..n], deliver[..n], false) + InUmem(l, frames[n..])
      && r.pool.remote == pool.remote
    decreases |descs|
  {
    hide CrossesFrame, InOneFrame;
    var frames := DescBases(l, descs);
    if descs == [] {
      assert frames[..n] == [] && frames[n..] == [];
    } else {
      CrossesIff(l, descs[0]);
      assert frames[1..] == DescBases(l, descs[1..]);
      if n == 0 {
        assert frames[..n] == [] && frames[n..] == frames && deliver[..n] == [];
      } else {
        ReceiveRest(l, m, descs, deliver, pool, live, n);
      }
    }
  }

  /** One well-formed descriptor, then the rest. */
  lemma ReceiveRest(l: Layout, m: nat, descs: seq<XdpDesc>, deliver: seq<bool>, pool: Pool, live: seq<Buffer>, n: nat)
    requires IsPow2(l.frameSize) && |deliver| == |descs| && GoodUpTo(l, descs, n) && n > 0
    ensures var r := Receive(l, m, descs, deliver, pool, live); var frames := DescBases(l, descs);
      && r.ok == (n == |descs|)
      && r.live == live + RxBuffers(Kept(frames[..n], deliver[..n], true), m)
      && r.pool.free == pool.free + Kept(frames[..n], deliver[..n], false) + InUmem(l, frames[n..])
      && r.pool.remote == pool.remote
    decreases |descs|, 0
  {
    hide CrossesFrame, InOneFrame, InUmem, IsPow2, Kept, DescBases, FrameBase, RxBuffers;
    CrossesIff(l, descs[0]);
    var frames := DescBases(l, descs);
    var base := FrameBase(descs[0].addr, l.frameSize);
    BasesFirst(l, descs, n);
    KeptFirst(frames, deliver, n, true);
    KeptFirst(frames, deliver, n, false);
    if deliver[0] {
      ReceiveExact(l, m, descs[1..], deliver[1..], pool, live + [Buffer(base, m, true)], n - 1);
      RxBuffersFirst(base, Kept(frames[1..][..n - 1], deliver[1..][..n - 1], true), m);
    } else {
      ReceiveExact(l, m, descs[1..], deliver[1..], pool.PushOwner(base), live, n - 1);
    }
  }

  lemma BasesFirst(l: Layout, descs: seq<XdpDesc>, n: nat)
    requires IsPow2(l.frameSize) && 0 < n <= |descs|
    ensures var frames := DescBases(l, descs);
      && frames[0] == FrameBase(descs[0].addr, l.frameSize) && frames[1..] == DescBases(l, descs[1..])
      && frames[n..] == frames[1..][n - 1..]
  {
  }

  lemma KeptFirst<T>(s: seq<T>, flags: seq<bool>, n: nat, want: bool)
    requires 0 < n <= |s| == |flags|
    ensures Kept(s[..n], flags[..n], want)
         == (if flags[0] == want then [s[0]] else []) + Kept(s[1..][..n - 1], flags[1..][..n - 1], want)
  {
    assert s[..n][1..] == s[1..][..n - 1] && flags[..n][1..] == flags[1..][..n - 1];
  }

  lemma RxBuffersFirst(frame: nat, rest: seq<nat>, m: nat)
    ensures RxBuffers([frame] + rest, m) == [Buffer(frame, m, true)] + RxBuffers(rest, m)
  {
  }

  /** With these bytes in it the frame is delivered: an unfragmented IPv4 packet behind its Ethernet header, far enough
      into the frame. */
  predicate Delivers(l: Layout, desc: XdpDesc, bytes: seq<Egress.byte>)
    requires l.frameSize > 0
  {
    && |bytes| == desc.len
    && match Ipv4Offset(bytes)
       case None => false
       case Some(at) =>
         at <= |bytes| && IsIpv4(bytes[at..]) && !IsFragment(bytes[at..]) && desc.addr % l.frameSize + at >= l.headroom
  }

  /** A descriptor is deliverable exactly when some contents of its length would be delivered. */
  lemma DeliverableIff(l: Layout, desc: XdpDesc)
    requires IsPow2(l.frameSize)
    ensures Deliverable(l, desc) <==> exists bytes :: Delivers(l, desc, bytes)
  {
    FrameBaseIsMultiple(desc.addr, l.frameSize);
    hide IsPow2, FrameBase;
    if DeliverableBehind(l, desc, 14) {
      DeliveredPlain(l, desc);
    } else if DeliverableBehind(l, desc, 18) {
      DeliveredTagged(l, desc);
    }
    if bytes :| Delivers(l, desc, bytes) {
      var at := Ipv4Offset(bytes).value;
      assert |bytes[at..]| >= 20 && DeliverableBehind(l, desc, at);
    }
  }

  function Zeros(n: nat): (r: seq<Egress.byte>)
    ensures |r| == n && forall i :: 0 <= i < n ==> r[i] == 0
  {
    seq(n, _ => 0)
  }

  lemma DeliveredPlain(l: Layout, desc: XdpDesc)
    requires l.frameSize > 0 && desc.len >= 34 && desc.addr % l.frameSize + 14 >= l.headroom
    ensures exists bytes :: Delivers(l, desc, bytes)
  {
    var packet: seq<Egress.byte> := [0x45, 0, 0, 20] + Zeros(desc.len - 18);
    var bytes := Zeros(12) + [8, 0] + packet;
    assert bytes[14..] == packet;
    assert Number(packet, 6) == 0;
    assert Delivers(l, desc, bytes);
  }

  lemma DeliveredTagged(l: Layout, desc: XdpDesc)
    requires l.frameSize > 0 && desc.len >= 38 && desc.addr % l.frameSize + 18 >= l.headroom
    ensures exists bytes :: Delivers(l, desc, bytes)
  {
    var packet: seq<Egress.byte> := [0x45, 0, 0, 20] + Zeros(desc.len - 22);
    var bytes := Zeros(12) + [0x81, 0, 0, 0, 8, 0] + packet;
    assert bytes[18..] == packet;
    assert Number(packet, 6) == 0;
    assert Delivers(l, desc, bytes);
  }

  lemma GoodPrefix(l: Layout, descs: seq<XdpDesc>) returns (n: nat)
    requires l.frameSize > 0
    ensures GoodUpTo(l, descs, n)
  {
    n := 0;
    while n < |descs| && InOneFrame(l, descs[n])
      invariant n <= |descs| && forall k :: 0 <= k < n ==> InOneFrame(l, descs[k])
    {
      n := n + 1;
    }
  }

  /** The receive call succeeds: every descriptor it took lies in one frame. */
  predicate AllInFrames(l: Layout, descs: seq<XdpDesc>)
    requires l.frameSize > 0
  {
    forall k :: 0 <= k < |descs| ==> InOneFrame(l, descs[k])
  }

  /** A receive call succeeds exactly when every descriptor lies in one frame, and then hands
      out exactly the flagged frames, in ring order. */
  lemma ReceiveAllExact(l: Layout, m: nat, descs: seq<XdpDesc>, deliver: seq<bool>, pool: Pool, live: seq<Buffer>)
    requires IsPow2(l.frameSize) && |deliver| == |descs|
    ensures var r := Receive(l, m, descs, deliver, pool, live); var frames := DescBases(l, descs);
      && r.ok == AllInFrames(l, descs) && r.pool.remote == pool.remote
      && (r.ok ==> r.live == live + RxBuffers(Kept(frames, deliver, true), m)
                   && r.pool.free == pool.free + Kept(frames, deliver, false))
  {
    hide InOneFrame, Receive, Kept;
    var n := GoodPrefix(l, descs);
    ReceiveExact(l, m, descs, deliver, pool, live, n);
    var frames := DescBases(l, descs);
    assert n == |descs| ==> frames[..n] == frames && deliver[..n] == deliver && frames[n..] == [];
  }

  /** A whole receive call: the FILL ring never overfills, the taken descriptors leave the
      RX ring, the kernel got what it took, and after a call that succeeded and took something
      nothing reclaimed is left behind unless the FILL ring is full. */
  lemma RecvExact(l: Layout, m: nat, rx0: RxSide, count: nat, deliver: seq<bool>, meanwhile: nat, live: seq<Buffer>)
    requires IsPow2(l.frameSize) && count == |deliver| <= |rx0.ring| && meanwhile <= |Refilled(l, rx0).fill|
    requires |rx0.fill| <= l.fillSize
    ensures var (rx, live') := AfterRecv(l, m, rx0, count, deliver, meanwhile, live);
      && |rx.fill| <= l.fillSize && rx.ring == rx0.ring[count..] && rx.pool.remote == []
      && rx0.dma <= rx.dma && |rx.dma| == |rx0.dma| + meanwhile
      && rx.dma[|rx0.dma|..] == (rx0.fill + rx0.pool.free + rx0.pool.remote)[..meanwhile]
      && (AllInFrames(l, rx0.ring[..count]) ==>
            live' == live + RxBuffers(Kept(DescBases(l, rx0.ring[..count]), deliver, true), m))
      && (AllInFrames(l, rx0.ring[..count]) && count > 0 ==> FullyRefilled(l.fillSize, rx))
  {
    hide AllInFrames, Receive, DescBases, Kept;
    var rx1 := Refilled(l, rx0);
    RefillExact(l, rx0);
    FillComesFromPool(l, rx0, meanwhile);
    var descs := rx1.ring[..count];
    ReceiveAllExact(l, m, descs, deliver, rx1.pool, live);
    var r := Receive(l, m, descs, deliver, rx1.pool, live);
    var rx2 := TookFill(rx1.(ring := rx1.ring[count..], pool := r.pool), meanwhile);
    RefillExact(l, rx2);
  }

  /** What the kernel takes after a refill comes from the old entries, then from the pool. */
  lemma FillComesFromPool(l: Layout, rx: RxSide, n: nat)
    requires |rx.fill| <= l.fillSize && n <= |Refilled(l, rx).fill|
    ensures Refilled(l, rx).fill <= rx.fill + rx.pool.free + rx.pool.remote
    ensures Refilled(l, rx).fill[..n] == (rx.fill + rx.pool.free + rx.pool.remote)[..n]
  {
    var scratch := rx.pool.free + rx.pool.remote;
    assert rx.fill + rx.pool.free + rx.pool.remote == rx.fill + scratch;
  }

  // ---------------------------------------------------------------- the other steps

  /** Every member but one is as it was. */
  predicate OthersKept(s: State, s': State, m: nat)
  {
    && |s'.members| == |s.members|
    && forall j :: 0 <= j < |s.members| && j != m ==> s'.members[j] == s.members[j]
  }

  /** A dropped buffer's frame goes to the end of one list of the pool it was taken from: the free list on
      the owner's thread, the queue on any other. */
  lemma DropExact(l: Layout, s: State, i: nat, onOwner: bool)
    requires IsPow2(l.frameSize) && i < |s.live| && s.live[i].owner < |s.members|
    ensures var b := s.live[i]; var m := s.members[b.owner];
      var s' := Next(l, s, if onOwner then DropOnOwner(i) else DropOnOtherThread(i)); var m' := s'.members[b.owner];
      && OthersKept(s, s', b.owner) && s'.live == s.live[..i] + s.live[i + 1..]
      && (b.fromRx ==> m'.tx == m.tx && m'.rx.fill == m.rx.fill && m'.rx.dma == m.rx.dma && m'.rx.ring == m.rx.ring
                       && m'.rx.pool.free == m.rx.pool.free + (if onOwner then [b.frame] else [])
                       && m'.rx.pool.remote == m.rx.pool.remote + (if onOwner then [] else [b.frame]))
      && (!b.fromRx ==> m'.rx == m.rx && m'.tx.ring == m.tx.ring && m'.tx.completions == m.tx.completions
                        && m'.tx.inFlight == m.tx.inFlight
                        && m'.tx.pool.free == m.tx.pool.free + (if onOwner then [b.frame] else [])
                        && m'.tx.pool.remote == m.tx.pool.remote + (if onOwner then [] else [b.frame]))
  {
  }

  /** An allocation hands out as many buffers as asked for or as the pool has, last freed first. */
  lemma AllocateExact(l: Layout, s: State, m: nat, max: nat)
    requires IsPow2(l.frameSize) && m < |s.members|
    ensures var tx := s.members[m].tx; var s' := Next(l, s, Allocate(m, max)); var tx' := s'.members[m].tx;
      var all := if max <= |tx.pool.free| then tx.pool.free else tx.pool.free + tx.pool.remote;
      var count := Min(max, |all|);
      && OthersKept(s, s', m) && s'.members[m].rx == s.members[m].rx
      && tx'.ring == tx.ring && tx'.completions == tx.completions && tx'.inFlight == tx.inFlight
      && tx'.pool.free == all[..|all| - count]
      && s.live <= s'.live && |s'.live| == |s.live| + count
      && var taken := s'.live[|s.live|..];
      forall k :: 0 <= k < count ==> taken[k] == Buffer(all[|all| - 1 - k], m, false)
  {
    hide Pool.PopMany, IsPow2, FrameBase;
    PopsLastFreed(s.members[m].tx.pool, max);
    var taken := s.members[m].tx.pool.PopMany(max).1;
    assert Next(l, s, Allocate(m, max)).live[|s.live|..] == NewBuffers(taken, m);
  }

  /** A submitted buffer is on the TX ring, counted, and no longer live. */
  lemma SendBufferExact(l: Layout, s: State, m: nat, i: nat, desc: XdpDesc)
    requires IsPow2(l.frameSize) && Enabled(l, s, SendBuffer(m, i, desc))
    ensures var tx := s.members[m].tx; var s' := Next(l, s, SendBuffer(m, i, desc)); var tx' := s'.members[m].tx;
      && OthersKept(s, s', m) && s'.members[m].rx == s.members[m].rx
      && tx' == TxSide(tx.ring + [desc], tx.completions, tx.pool, tx.inFlight + 1)
      && s'.live == s.live[..i] + s.live[i + 1..]
      && desc.addr / l.frameSize == s.live[i].frame / l.frameSize
  {
    FrameBaseIsMultiple(desc.addr, l.frameSize);
    DivModUnique(s.live[i].frame, l.frameSize, desc.addr / l.frameSize, 0);
  }

  /** An endpoint send puts as many packets on the TX ring as it has frames for, counts
      them all, and leaves the live buffers alone. */
  lemma SendEndpointExact(l: Layout, s: State, m: nat, max: nat, offset: nat, lens: seq<nat>)
    requires IsPow2(l.frameSize) && Enabled(l, s, SendEndpoint(m, max, offset, lens))
    ensures var tx := s.members[m].tx; var s' := Next(l, s, SendEndpoint(m, max, offset, lens));
      var tx' := s'.members[m].tx;
      var all := if max <= |tx.pool.free| then tx.pool.free else tx.pool.free + tx.pool.remote;
      var count := Min(max, |all|);
      && OthersKept(s, s', m) && s'.members[m].rx == s.members[m].rx && s'.live == s.live
      && tx'.completions == tx.completions && tx'.inFlight == tx.inFlight + count
      && tx'.pool.free == all[..|all| - count]
      && tx.ring <= tx'.ring && |tx'.ring| == |tx.ring| + count
      && var sent := tx'.ring[|tx.ring|..];
      forall k :: 0 <= k < count ==> sent[k] == XdpDesc(all[|all| - 1 - k] + offset, lens[k])
  {
    hide Pool.PopMany, IsPow2, FrameBase;
    var tx := s.members[m].tx;
    PopsLastFreed(tx.pool, max);
    var taken := tx.pool.PopMany(max).1;
    var ring := Next(l, s, SendEndpoint(m, max, offset, lens)).members[m].tx.ring;
    assert ring[|tx.ring|..] == EndpointDescs(taken, offset, lens);
  }

  /** An endpoint batch that fails leaves every frame in the pool; at most its queue has joined the free list. */
  lemma EndpointFailsExact(l: Layout, s: State, m: nat, max: nat)
    requires IsPow2(l.frameSize) && m < |s.members|
    ensures var tx := s.members[m].tx; var s' := Next(l, s, EndpointFails(m, max)); var tx' := s'.members[m].tx;
      && OthersKept(s, s', m) && s'.members[m].rx == s.members[m].rx && s'.live == s.live
      && tx'.ring == tx.ring && tx'.completions == tx.completions && tx'.inFlight == tx.inFlight
      && tx'.pool.free == tx.pool.free + (if |tx.pool.free| < max then tx.pool.remote else [])
      && tx'.pool.remote == (if |tx.pool.free| < max then [] else tx.pool.remote)
  {
  }

  // ---------------------------------------------------------------- every run

  /** No FILL ring holds more entries than it has. */
  predicate FillsFit(l: Layout, s: State)
  {
    forall i :: 0 <= i < |s.members| ==> |s.members[i].rx.fill| <= l.fillSize
  }

  lemma StepKeepsFillsFit(l: Layout, s: State, step: Step)
    requires IsPow2(l.frameSize) && Enabled(l, s, step) && FillsFit(l, s)
    ensures FillsFit(l, Next(l, s, step))
  {
    hide Refilled, AfterRecv, Drained, Pool.PopMany, Dropped, IsPow2, FrameBase;
    match step
    case Replenish(m) => RefillExact(l, s.members[m].rx);
    case Recv(m, count, deliver, meanwhile) =>
      RecvExact(l, m, s.members[m].rx, count, deliver, meanwhile, s.live);
    case DrainCompletions(m, max) => DrainKeepsFill(l, s.members[m], max);
    case DropOnOwner(i) => DropExact(l, s, i, true);
    case DropOnOtherThread(i) => DropExact(l, s, i, false);
    case _ =>
  }

  lemma DrainKeepsFill(l: Layout, member: Member, max: nat)
    requires IsPow2(l.frameSize)
    ensures Drained(l, member, max).rx.fill == member.rx.fill
  {
  }

  lemma {:induction false} RunKeepsFillsFit(l: Layout, s: State, steps: seq<Step>)
    requires IsPow2(l.frameSize) && IsRun(l, s, steps) && FillsFit(l, s)
    ensures FillsFit(l, Exec(l, s, steps))
    decreases |steps|
  {
    if steps != [] {
      StepKeepsFillsFit(l, s, steps[0]);
      RunKeepsFillsFit(l, Next(l, s, steps[0]), steps[1..]);
    }
  }

  /** In every run of opened sockets no FILL ring is overfilled, so every refill has the exact
      effect above, and so has every receive call. */
  lemma EveryRefillIsExact(g: Geometry, l: Layout, steps: seq<Step>, m: nat)
    requires IsOpened(g, l) && IsRun(l, Opened(g), steps) && m < g.members
    ensures var rx := Exec(l, Opened(g), steps).members[m].rx;
      && |rx.fill| <= l.fillSize
      && RefillMoves(l.fillSize, rx, Refilled(l, rx)) && FullyRefilled(l.fillSize, Refilled(l, rx))
  {
    RunKeepsFillsFit(l, Opened(g), steps);
    RefillExact(l, Exec(l, Opened(g), steps).members[m].rx);
  }

  /** The opened sockets split every member's frames in two equal halves: the FILL ring and the TX free list. */
  lemma OpenedInHalves(g: Geometry, m: nat)
    requires g.Validated() && m < g.members
    ensures var member := Opened(g).members[m];
      && |member.rx.fill| == |member.tx.pool.free| && 2 * |member.rx.fill| == g.perMember
      && forall k :: 0 <= k < |member.rx.fill| ==>
           && member.rx.fill[k] == (m * g.perMember + k) * g.frameSize
           && member.tx.pool.free[k] == (m * g.perMember + g.perMember / 2 + k) * g.frameSize
  {
  }
}
