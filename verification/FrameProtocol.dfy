/** UMEM frame ownership: every data structure that can hold a frame, and every
    step that moves frames between them, over one socket or over several members
    that share one UMEM.  Kernel and other-thread steps are interleaved freely with
    the owner's; the kernel only returns frames it was given. */
module FrameProtocol {
  import opened Bits
  import opened Wrappers
  import opened Umem
  import opened FrameReclaim
  import Egress

  /** Fixed facts: sizes, classification, the active frames, the member whose slice
      each frame belongs to, the size of a FILL ring, and the headroom in front of a
      received packet. */
  datatype Layout = Layout(frameSize: nat, umemLen: nat, reclaim: CompletionReclaim, frames: set<nat>,
                           home: map<nat, nat>, fillSize: nat, headroom: nat)

  predicate LayoutOk(l: Layout, members: nat)
  {
    && IsPow2(l.frameSize)
    && forall f :: f in l.frames ==>
         && FrameBase(f, l.frameSize) == f
         && !l.reclaim.Rejects(f, l.umemLen)
         && f in l.home && l.home[f] < members
  }

  /** Receive half of one member: FILL ring, frames the kernel took from it, RX ring
      and the RX pool. */
  datatype RxSide = RxSide(fill: seq<nat>, dma: seq<nat>, ring: seq<XdpDesc>, pool: Pool)

  /** Transmit half: descriptors in the TX ring or in the kernel, COMPLETION ring,
      TX pool and the in-flight counter. */
  datatype TxSide = TxSide(ring: seq<XdpDesc>, completions: seq<nat>, pool: Pool, inFlight: nat)

  datatype Member = Member(rx: RxSide, tx: TxSide)

  /** A live packet buffer: its frame and the pool it goes back to when dropped. */
  datatype Buffer = Buffer(frame: nat, owner: nat, fromRx: bool)

  datatype State = State(members: seq<Member>, live: seq<Buffer>)

  datatype Step =
    | KernelTakesFill(m: nat)
    | KernelReceives(m: nat, k: nat, desc: XdpDesc)
    | Replenish(m: nat)
    | Recv(m: nat, count: nat, deliver: seq<bool>, meanwhile: nat)
    | DropOnOwner(i: nat)
    | DropOnOtherThread(i: nat)
    | Allocate(m: nat, max: nat)
    | SendBuffer(m: nat, i: nat, desc: XdpDesc)
    | SendEndpoint(m: nat, max: nat, offset: nat, lens: seq<nat>)
    | EndpointFails(m: nat, max: nat)
    | KernelCompletes(m: nat, k: nat, addr: nat)
    | DrainCompletions(m: nat, max: nat)

  // ---------------------------------------------------------------- sequences of descriptors

  function Addrs(descs: seq<XdpDesc>): (r: seq<nat>)
    ensures |r| == |descs|
    ensures forall k :: 0 <= k < |descs| ==> r[k] == descs[k].addr
  {
    seq(|descs|, k requires 0 <= k < |descs| => descs[k].addr)
  }

  function DescBases(l: Layout, descs: seq<XdpDesc>): (r: seq<nat>)
    requires IsPow2(l.frameSize)
    ensures |r| == |descs|
  {
    Bases(Addrs(descs), l.frameSize)
  }

  function BufferFrames(live: seq<Buffer>): (r: seq<nat>)
    ensures |r| == |live|
    ensures forall k :: 0 <= k < |live| ==> r[k] == live[k].frame
  {
    seq(|live|, k requires 0 <= k < |live| => live[k].frame)
  }

  function Without<T>(s: seq<T>, k: nat): (r: seq<T>)
    requires k < |s|
  {
    s[..k] + s[k + 1..]
  }

  // ---------------------------------------------------------------- owner operations

  /** `replenish_fill`: the whole RX pool goes to the FILL ring as far as it has
      room; the rest returns to the free list. */
  function Replenished(rx: RxSide, room: nat): RxSide
  {
    var scratch := rx.pool.free + rx.pool.remote;
    var written := Min(|scratch|, room);
    rx.(fill := rx.fill + scratch[..written], pool := Pool(scratch[written..], []))
  }

  /** Free entries of the FILL ring. */
  function Room(l: Layout, rx: RxSide): nat { SaturatingSub(l.fillSize, |rx.fill|) }

  function Refilled(l: Layout, rx: RxSide): RxSide { Replenished(rx, Room(l, rx)) }

  /** The kernel takes the first `n` entries of the FILL ring. */
  function TookFill(rx: RxSide, n: nat): RxSide
    requires n <= |rx.fill|
  {
    rx.(fill := rx.fill[n..], dma := rx.dma + rx.fill[..n])
  }

  /** The receive call on one member: refill, the loop over the taken descriptors, and,
      if they were well formed, a second refill.  The kernel takes `meanwhile` FILL
      entries in between. */
  function AfterRecv(l: Layout, m: nat, rx0: RxSide, count: nat, deliver: seq<bool>, meanwhile: nat,
                     live: seq<Buffer>): (RxSide, seq<Buffer>)
    requires IsPow2(l.frameSize) && count == |deliver| <= |rx0.ring| && meanwhile <= |Refilled(l, rx0).fill|
  {
    var rx := Refilled(l, rx0);
    var r := Receive(l, m, rx.ring[..count], deliver, rx.pool, live);
    var rx' := TookFill(rx.(ring := rx.ring[count..], pool := r.pool), meanwhile);
    (if r.ok && count > 0 then Refilled(l, rx') else rx', r.live)
  }

  predicate CrossesFrame(l: Layout, desc: XdpDesc)
    requires IsPow2(l.frameSize)
  {
    var base := FrameBase(desc.addr, l.frameSize);
    base >= l.umemLen || desc.addr - base + desc.len > l.frameSize
  }

  /** Smallest IP header. */
  const SHORTEST_PACKET: nat := 20

  /** Room for an IP header behind this Ethernet header, and for the headroom in front of the
      packet. */
  predicate DeliverableBehind(l: Layout, desc: XdpDesc, l2Len: nat)
    requires IsPow2(l.frameSize)
  {
    && desc.len >= l2Len + SHORTEST_PACKET
    && desc.addr - FrameBase(desc.addr, l.frameSize) + l2Len >= l.headroom
  }

  /** What the parser and the buffer wrapper need at least before they deliver a frame, which
      may carry an 802.1Q tag. */
  predicate Deliverable(l: Layout, desc: XdpDesc)
    requires IsPow2(l.frameSize)
  {
    || DeliverableBehind(l, desc, Egress.ETHERNET_HEADER_LEN)
    || DeliverableBehind(l, desc, Egress.VLAN_HEADER_LEN)
  }

  /** What `prepare_tx_frame_with_header` makes: at least an Ethernet header, inside the frame. */
  predicate Submittable(l: Layout, desc: XdpDesc)
    requires IsPow2(l.frameSize)
  {
    && desc.len >= Egress.ETHERNET_HEADER_LEN
    && desc.addr - FrameBase(desc.addr, l.frameSize) + desc.len <= l.frameSize
  }

  function PushAll(pool: Pool, frames: seq<nat>): Pool
  {
    Pool(pool.free + frames, pool.remote)
  }

  /** Result of the receive loop: pool, live buffers, and whether every descriptor
      was well formed. */
  datatype Received = Received(pool: Pool, live: seq<Buffer>, ok: bool)

  /** The receive loop: each descriptor's frame becomes a live buffer when the
      packet is delivered and goes back to the pool when it is not; a malformed
      descriptor sends its frame and all the remaining ones back to the pool. */
  function Receive(l: Layout, m: nat, descs: seq<XdpDesc>, deliver: seq<bool>, pool: Pool, live: seq<Buffer>): Received
    requires IsPow2(l.frameSize) && |deliver| == |descs|
    decreases |descs|
  {
    if descs == [] then Received(pool, live, true)
    else
      var base := FrameBase(descs[0].addr, l.frameSize);
      if CrossesFrame(l, descs[0]) then
        Received(PushAll(pool, InUmem(l, DescBases(l, descs))), live, false)
      else if deliver[0] then Receive(l, m, descs[1..], deliver[1..], pool, live + [Buffer(base, m, true)])
      else Receive(l, m, descs[1..], deliver[1..], pool.PushOwner(base), live)
  }

  /** `frame_addr_for_desc` answers only for frames inside the UMEM. */
  function InUmem(l: Layout, frames: seq<nat>): (r: seq<nat>)
  {
    if frames == [] then []
    else (if frames[0] < l.umemLen then [frames[0]] else []) + InUmem(l, frames[1..])
  }

  function NewBuffers(frames: seq<nat>, m: nat): (r: seq<Buffer>)
    ensures |r| == |frames|
    ensures forall k :: 0 <= k < |frames| ==> r[k] == Buffer(frames[k], m, false)
  {
    seq(|frames|, k requires 0 <= k < |frames| => Buffer(frames[k], m, false))
  }

  function RxBuffers(frames: seq<nat>, m: nat): (r: seq<Buffer>)
    ensures |r| == |frames| && forall k :: 0 <= k < |frames| ==> r[k] == Buffer(frames[k], m, true)
  {
    seq(|frames|, k requires 0 <= k < |frames| => Buffer(frames[k], m, true))
  }

  /** Descriptors of an endpoint batch: header offset inside each taken frame. */
  function EndpointDescs(frames: seq<nat>, offset: nat, lens: seq<nat>): (r: seq<XdpDesc>)
    requires |lens| >= |frames|
    ensures |r| == |frames|
    ensures forall k :: 0 <= k < |frames| ==> r[k] == XdpDesc(frames[k] + offset, lens[k])
  {
    seq(|frames|, k requires 0 <= k < |frames| => XdpDesc(frames[k] + offset, lens[k]))
  }

  function SaturatingSub(a: nat, b: nat): nat { if a >= b then a - b else 0 }

  /** The completions a drain takes, reclaimed. */
  function DrainResult(l: Layout, member: Member, max: nat): Reclaimed
    requires IsPow2(l.frameSize)
  {
    ReclaimAll(l.reclaim, l.umemLen, Bases(member.tx.completions[..Min(max, |member.tx.completions|)], l.frameSize),
               member.rx.pool.free, member.tx.pool.free)
  }

  /** `drain_tx_completions_inner`: up to `max` completions are classified into the
      two free lists and leave the in-flight count; a rejected completion returns the
      error before the count is touched. */
  function Drained(l: Layout, member: Member, max: nat): Member
    requires IsPow2(l.frameSize)
  {
    var count := Min(max, |member.tx.completions|);
    var r := DrainResult(l, member, max);
    Member(member.rx.(pool := member.rx.pool.(free := r.rxFree)),
           member.tx.(completions := member.tx.completions[count..],
                      pool := member.tx.pool.(free := r.txFree),
                      inFlight := if r.ok then SaturatingSub(member.tx.inFlight, count) else member.tx.inFlight))
  }

  // ---------------------------------------------------------------- steps

  predicate Enabled(l: Layout, s: State, step: Step)
    requires IsPow2(l.frameSize)
  {
    match step
    case KernelTakesFill(m) => m < |s.members| && s.members[m].rx.fill != []
    case KernelReceives(m, k, desc) =>
      m < |s.members| && k < |s.members[m].rx.dma| && FrameBase(desc.addr, l.frameSize) == s.members[m].rx.dma[k]
    case Replenish(m) => m < |s.members|
    case Recv(m, count, deliver, meanwhile) =>
      && m < |s.members| && count == |deliver| <= |s.members[m].rx.ring|
      && meanwhile <= |Refilled(l, s.members[m].rx).fill|
      && forall k :: 0 <= k < count && deliver[k] ==> Deliverable(l, s.members[m].rx.ring[k])
    case DropOnOwner(i) => i < |s.live| && s.live[i].owner < |s.members|
    case DropOnOtherThread(i) => i < |s.live| && s.live[i].owner < |s.members|
    case Allocate(m, _) => m < |s.members|
    case SendBuffer(m, i, desc) =>
      && m < |s.members| && i < |s.live| && FrameBase(desc.addr, l.frameSize) == s.live[i].frame
      && Submittable(l, desc)
    case SendEndpoint(m, max, offset, lens) =>
      && m < |s.members| && |lens| == max && offset < l.frameSize
      && forall k :: 0 <= k < max ==> Egress.ETHERNET_HEADER_LEN <= lens[k] <= l.frameSize - offset
    case EndpointFails(m, _) => m < |s.members|
    case KernelCompletes(m, k, addr) =>
      && m < |s.members| && k < |s.members[m].tx.ring|
      && FrameBase(addr, l.frameSize) == FrameBase(s.members[m].tx.ring[k].addr, l.frameSize)
    case DrainCompletions(m, _) => m < |s.members|
  }

  function WithRx(s: State, m: nat, rx: RxSide): State
    requires m < |s.members|
  {
    s.(members := s.members[m := s.members[m].(rx := rx)])
  }

  function WithTx(s: State, m: nat, tx: TxSide): State
    requires m < |s.members|
  {
    s.(members := s.members[m := s.members[m].(tx := tx)])
  }

  function Next(l: Layout, s: State, step: Step): (r: State)
    requires IsPow2(l.frameSize) && Enabled(l, s, step)
    ensures |r.members| == |s.members|
  {
    match step
    case KernelTakesFill(m) =>
      var rx := s.members[m].rx;
      WithRx(s, m, rx.(fill := rx.fill[1..], dma := rx.dma + [rx.fill[0]]))
    case KernelReceives(m, k, desc) =>
      var rx := s.members[m].rx;
      WithRx(s, m, rx.(dma := Without(rx.dma, k), ring := rx.ring + [desc]))
    case Replenish(m) => WithRx(s, m, Refilled(l, s.members[m].rx))
    case Recv(m, count, deliver, meanwhile) =>
      var (rx, live) := AfterRecv(l, m, s.members[m].rx, count, deliver, meanwhile, s.live);
      WithRx(s, m, rx).(live := live)
    case DropOnOwner(i) => Dropped(s, i, true)
    case DropOnOtherThread(i) => Dropped(s, i, false)
    case Allocate(m, max) =>
      var (pool, taken) := s.members[m].tx.pool.PopMany(max);
      WithTx(s, m, s.members[m].tx.(pool := pool)).(live := s.live + NewBuffers(taken, m))
    case SendBuffer(m, i, desc) =>
      var tx := s.members[m].tx;
      WithTx(s, m, tx.(ring := tx.ring + [desc], inFlight := tx.inFlight + 1)).(live := Without(s.live, i))
    case SendEndpoint(m, max, offset, lens) =>
      var tx := s.members[m].tx;
      var (pool, taken) := tx.pool.PopMany(max);
      WithTx(s, m,
             tx.(pool := pool, ring := tx.ring + EndpointDescs(taken, offset, lens), inFlight := tx.inFlight + |taken|))
    case EndpointFails(m, max) =>
      var tx := s.members[m].tx;
      WithTx(s, m, tx.(pool := if |tx.pool.free| < max then tx.pool.Drained() else tx.pool))
    case KernelCompletes(m, k, addr) =>
      var tx := s.members[m].tx;
      WithTx(s, m, tx.(ring := Without(tx.ring, k), completions := tx.completions + [addr]))
    case DrainCompletions(m, max) => s.(members := s.members[m := Drained(l, s.members[m], max)])
  }

  /** Dropping a buffer returns its frame to the pool that handed it out. */
  function Dropped(s: State, i: nat, onOwner: bool): State
    requires i < |s.live| && s.live[i].owner < |s.members|
  {
    var b := s.live[i];
    var member := s.members[b.owner];
    var pool := if b.fromRx then member.rx.pool else member.tx.pool;
    var pool' := if onOwner then pool.PushOwner(b.frame) else pool.PushRemote(b.frame);
    var s' := if b.fromRx then WithRx(s, b.owner, member.rx.(pool := pool'))
      else WithTx(s, b.owner, member.tx.(pool := pool'));
    s'.(live := Without(s.live, i))
  }

  predicate IsRun(l: Layout, s: State, steps: seq<Step>)
    requires IsPow2(l.frameSize)
    decreases |steps|
  {
    steps == [] || (Enabled(l, s, steps[0]) && IsRun(l, Next(l, s, steps[0]), steps[1..]))
  }

  function Exec(l: Layout, s: State, steps: seq<Step>): (r: State)
    requires IsPow2(l.frameSize) && IsRun(l, s, steps)
    ensures |r.members| == |s.members|
    decreases |steps|
  {
    if steps == [] then s else Exec(l, Next(l, s, steps[0]), steps[1..])
  }

  // ---------------------------------------------------------------- who owns what

  function RxOwned(l: Layout, rx: RxSide): multiset<nat>
    requires IsPow2(l.frameSize)
  {
    multiset(rx.fill) + multiset(rx.dma) + multiset(DescBases(l, rx.ring)) + rx.pool.Frames()
  }

  function TxOwned(l: Layout, tx: TxSide): multiset<nat>
    requires IsPow2(l.frameSize)
  {
    multiset(DescBases(l, tx.ring)) + multiset(Bases(tx.completions, l.frameSize)) + tx.pool.Frames()
  }

  function Owned(l: Layout, m: Member): multiset<nat>
    requires IsPow2(l.frameSize)
  {
    RxOwned(l, m.rx) + TxOwned(l, m.tx)
  }

  function SumOf(parts: seq<multiset<nat>>): multiset<nat>
  {
    if parts == [] then multiset{} else parts[0] + SumOf(parts[1..])
  }

  function AllOwned(l: Layout, ms: seq<Member>): multiset<nat>
    requires IsPow2(l.frameSize)
  {
    SumOf(OwnedBy(l, ms))
  }

  function OwnedBy(l: Layout, ms: seq<Member>): (r: seq<multiset<nat>>)
    requires IsPow2(l.frameSize)
    ensures |r| == |ms|
    ensures forall i :: 0 <= i < |ms| ==> r[i] == Owned(l, ms[i])
  {
    seq(|ms|, i requires 0 <= i < |ms| => Owned(l, ms[i]))
  }

  /** Every frame held anywhere, with multiplicity. */
  function Total(l: Layout, s: State): multiset<nat>
    requires IsPow2(l.frameSize)
  {
    AllOwned(l, s.members) + multiset(BufferFrames(s.live))
  }

  /** In how many places a frame is held. */
  function Places(l: Layout, s: State, f: nat): nat
    requires IsPow2(l.frameSize)
  {
    Total(l, s)[f]
  }

  /** No frame is lost or held twice, and nothing else is taken for a frame. */
  ghost predicate EachInOnePlace(l: Layout, s: State)
    requires IsPow2(l.frameSize)
  {
    forall f :: Places(l, s, f) == if f in l.frames then 1 else 0
  }

  // ---------------------------------------------------------------- invariant

  /** Frames on the receive side are RX-class, frames in the TX pool are TX-class,
      and the counter is exactly the frames submitted and not yet drained. */
  ghost predicate MemberOk(l: Layout, m: Member)
    requires IsPow2(l.frameSize)
  {
    && (forall f :: f in RxOwned(l, m.rx) ==> l.reclaim.IsRx(f))
    && (forall f :: f in m.tx.pool.Frames() ==> !l.reclaim.IsRx(f))
    && m.tx.inFlight == |m.tx.ring| + |m.tx.completions|
  }

  predicate BufferOk(l: Layout, members: nat, b: Buffer)
  {
    b.owner < members && b.fromRx == l.reclaim.IsRx(b.frame)
  }

  ghost predicate Inv(l: Layout, s: State)
  {
    && LayoutOk(l, |s.members|)
    && EachInOnePlace(l, s)
    && (forall i :: 0 <= i < |s.members| ==> MemberOk(l, s.members[i]))
    && (forall k :: 0 <= k < |s.live| ==> BufferOk(l, |s.members|, s.live[k]))
  }
}
