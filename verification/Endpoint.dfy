/** Sending one UDP payload two ways: the plain path writes all headers per packet,
    the prepared-endpoint path patches a cached header.  Under the same resolved route
    both give the same descriptor and the same frame bytes. */
module Endpoint {
  import opened Wrappers
  import opened Egress
  import opened Checksum
  import opened Headers
  import opened Umem
  import opened Routes
  import opened RouteSnapshot
  import Bits
  import FrameInvariant

  datatype Error = InvalidPacket | OversizeForMtu | NoEgressRoute | Backend

  datatype Result<T> = Ok(value: T) | Err(error: Error)

  /** What a caller asks for: addresses, ports, ECN, and optionally a fixed length. */
  datatype Spec = Spec(destination: Ipv4, destinationPort: u16, source: Option<Octets>, sourcePort: Option<u16>,
                       ecn: Option<Ecn>, payloadLen: Option<nat>, gso: bool)

  /** Fixed facts of the socket. */
  datatype Socket = Socket(address: Octets, port: u16, ttl: byte, ifindex: nat, mtu: nat, l2Headroom: nat)

  /** A packet buffer: a frame and the window of its payload. */
  datatype Packet = Packet(frameAddr: nat, start: nat, end: nat, frame: seq<byte>)
  {
    predicate Valid() { start <= end <= |frame| }
    function Len(): nat requires Valid() { end - start }
  }

  /** Descriptor submitted and frame contents at that moment. */
  datatype Submitted = Submitted(desc: XdpDesc, frame: seq<byte>)

  function OctetsOf(ip: Ipv4): Octets { [ip / 0x100_0000, ip / 0x1_0000 % 0x100, ip / 0x100 % 0x100, ip % 0x100] }

  /** Header fields shared by both paths; lengths are filled in per payload. */
  function FieldsOf(socket: Socket, spec: Spec): Fields
  {
    Fields(if spec.sourcePort.Some? then spec.sourcePort.value else socket.port, spec.destinationPort,
           if spec.source.Some? then spec.source.value else socket.address, OctetsOf(spec.destination),
           0, 0, socket.ttl, spec.ecn)
  }

  /** Route resolution of the snapshot for this socket. */
  function Resolve(facts: Facts, socket: Socket, dst: Ipv4): Option<ResolvedL2>
  {
    match PlainSearch(facts, dst, socket.ifindex, 0)
    case None => None
    case Some(e) => Some(ResolvedL2(EthernetHeader(e), Min(socket.mtu, e.mtu)))
  }

  // ---------------------------------------------------------------- frames

  /** Bytes copied in front of the payload. */
  function PutBefore(frame: seq<byte>, at: nat, bytes: seq<byte>): (r: seq<byte>)
    requires |bytes| <= at <= |frame|
    ensures |r| == |frame|
  {
    frame[..at - |bytes|] + bytes + frame[at..]
  }

  lemma PutTwice(frame: seq<byte>, at: nat, inner: seq<byte>, outer: seq<byte>)
    requires |outer| + |inner| <= at <= |frame|
    ensures PutBefore(PutBefore(frame, at, inner), at - |inner|, outer) == PutBefore(frame, at, outer + inner)
  {
  }

  /** `prepare_tx_frame_with_header`. */
  function PrepareTxFrame(p: Packet, header: seq<byte>): Option<Submitted>
    requires p.Valid()
  {
    if |header| > p.start || p.start - |header| + (|header| + p.Len()) > |p.frame| then None
    else Some(Submitted(XdpDesc(p.frameAddr + (p.start - |header|), |header| + p.Len()),
                        PutBefore(p.frame, p.start, header)))
  }

  /** A prepared descriptor lies inside its frame, and masking the address the kernel
      completes, wherever in the descriptor it points, gives that frame back. */
  lemma CompletionRecoversFrame(p: Packet, header: seq<byte>, offset: nat)
    requires Bits.IsPow2(|p.frame|) && FrameBase(p.frameAddr, |p.frame|) == p.frameAddr && p.Valid() && header != []
    requires PrepareTxFrame(p, header).Some? && offset < PrepareTxFrame(p, header).value.desc.len
    ensures var desc := PrepareTxFrame(p, header).value.desc;
      && p.frameAddr <= desc.addr && desc.addr + desc.len <= p.frameAddr + |p.frame|
      && FrameBase(desc.addr + offset, |p.frame|) == p.frameAddr
  {
    FrameInvariant.FrameBaseOfOffset(p.frameAddr, p.start - |header| + offset, |p.frame|);
  }

  // ---------------------------------------------------------------- plain path

  /** One slot of `send_udp_inner`: resolve, write the headers, prepend, submit. */
  function PlainPrepare(socket: Socket, spec: Spec, resolved: Option<ResolvedL2>, p: Packet): Result<Submitted>
    requires p.Valid() && socket.l2Headroom <= p.start
  {
    if resolved.None? then Err(NoEgressRoute)
    else if resolved.value.ipMtu < 28 then Err(InvalidPacket)
    else if p.Len() > resolved.value.ipMtu - 28 then Err(OversizeForMtu)
    else if p.Len() + 28 > 0xFFFF then Err(OversizeForMtu)
    else if 28 > p.start - socket.l2Headroom then Err(InvalidPacket)
    else
      var headers := HeaderBytes(WithPayload(FieldsOf(socket, spec), p.Len()));
      var prepended := p.(start := p.start - 28, frame := PutBefore(p.frame, p.start, headers));
      match PrepareTxFrame(prepended, resolved.value.l2Header)
      case None => Err(Backend)
      case Some(submitted) => Ok(submitted)
  }

  // ---------------------------------------------------------------- endpoint path

  /** Limits of a prepared endpoint. */
  datatype Info = Info(mtu: nat, payloadLen: Option<nat>)

  datatype Cache = Cache(generation: nat, header: seq<byte>, l2Len: nat)

  /** `validate_xdp_udp_endpoint_payload`. */
  function ValidatePayload(info: Info, payloadLen: nat): Option<Error>
  {
    if info.payloadLen.Some? && payloadLen != info.payloadLen.value then Some(InvalidPacket)
    else if payloadLen > info.mtu then Some(OversizeForMtu)
    else if payloadLen > 0xFFFF - 28 then Some(OversizeForMtu)
    else None
  }

  /** `build_xdp_udp_endpoint_cache`. */
  function BuildCache(socket: Socket, spec: Spec, resolved: Option<ResolvedL2>, generation: nat): Result<(Cache, Info)>
  {
    if spec.gso then Err(InvalidPacket)
    else if resolved.None? then Err(NoEgressRoute)
    else if resolved.value.ipMtu < 28 then Err(InvalidPacket)
    else
      var info := Info(resolved.value.ipMtu - 28, spec.payloadLen);
      var len := if spec.payloadLen.Some? then spec.payloadLen.value else 0;
      match ValidatePayload(info, len)
      case Some(error) => Err(error)
      case None => Ok((Cache(generation, Template(resolved.value.l2Header, FieldsOf(socket, spec), len),
                             |resolved.value.l2Header|), info))
  }

  /** One slot of `send_udp_endpoint_inner`: the cached header is patched for this length
      (unless the length is fixed) and copied in front of the payload. */
  function EndpointPrepare(cache: Cache, info: Info, p: Packet): (Cache, Result<Submitted>)
    requires p.Valid() && cache.l2Len + 28 <= |cache.header|
  {
    match ValidatePayload(info, p.Len())
    case Some(error) => (cache, Err(error))
    case None =>
      var patched := if info.payloadLen.Some? then Some(cache.header)
        else PatchLengths(cache.header, cache.l2Len, p.Len());
      match patched
      case None => (cache, Err(OversizeForMtu))
      case Some(header) =>
        (cache.(header := header),
         match PrepareTxFrame(p, header) case None => Err(Backend) case Some(submitted) => Ok(submitted))
  }

  /** Why a packet is refused: its length, or too little room in front of it. */
  function PacketError(info: Info, headerLen: nat, p: Packet): Option<Error>
    requires p.Valid()
  {
    if ValidatePayload(info, p.Len()).Some? then ValidatePayload(info, p.Len())
    else if headerLen > p.start then Some(Backend)
    else None
  }

  /** A packet is refused for nothing else. */
  lemma RefusedWhen(cache: Cache, info: Info, p: Packet)
    requires p.Valid() && cache.l2Len + 28 <= |cache.header|
    ensures match EndpointPrepare(cache, info, p).1
      case Ok(_) => PacketError(info, |cache.header|, p) == None
      case Err(e) => PacketError(info, |cache.header|, p) == Some(e)
  {
  }

  // ---------------------------------------------------------------- agreement

  /** The length a cache is built for. */
  function BuiltLen(spec: Spec): nat { if spec.payloadLen.Some? then spec.payloadLen.value else 0 }

  /** Limits of an endpoint under a route. */
  function LimitsOf(spec: Spec, resolved: ResolvedL2): Info
    requires resolved.ipMtu >= 28
  {
    Info(resolved.ipMtu - 28, spec.payloadLen)
  }

  /** The cached header is that of payload length `len` under `resolved`, with the checksum
      field `checksum`. */
  ghost predicate CacheWith(cache: Cache, info: Info, socket: Socket, spec: Spec, resolved: Option<ResolvedL2>,
                            len: nat, checksum: u16)
  {
    && resolved.Some? && resolved.value.ipMtu >= 28 && len + 28 < 0x1_0000
    && info == LimitsOf(spec, resolved.value) && (spec.payloadLen.Some? ==> spec.payloadLen.value == len)
    && cache.l2Len == |resolved.value.l2Header|
    && cache.header == WithChecksum(resolved.value.l2Header, WithPayload(FieldsOf(socket, spec), len), checksum)
  }

  /** The right checksum for a payload of this length. */
  function RightChecksum(socket: Socket, spec: Spec, len: nat): u16
    requires len + 28 < 0x1_0000
  {
    HeaderChecksumOf(WithPayload(FieldsOf(socket, spec), len))
  }

  /** The cached header is the fresh header of payload length `len` under `resolved`. */
  ghost predicate CacheFor(cache: Cache, info: Info, socket: Socket, spec: Spec, resolved: Option<ResolvedL2>, len: nat)
  {
    len + 28 < 0x1_0000 && CacheWith(cache, info, socket, spec, resolved, len, RightChecksum(socket, spec, len))
  }

  lemma BuiltCacheFits(socket: Socket, spec: Spec, resolved: Option<ResolvedL2>, generation: nat)
    ensures var r := BuildCache(socket, spec, resolved, generation);
      r.Ok? ==>
        && r.value.0.generation == generation && CacheFor(r.value.0, r.value.1, socket, spec, resolved, BuiltLen(spec))
  {
    hide FieldsOf, Template, WithChecksum, HeaderChecksumOf;
    if BuiltLen(spec) + 28 < 0x1_0000 && resolved.Some? {
      TemplateChecksum(resolved.value.l2Header, FieldsOf(socket, spec), BuiltLen(spec));
    }
  }

  /** Does this send patch the length, and does the patch meet the carry case? */
  ghost predicate PatchHitsCarry(socket: Socket, spec: Spec, len: nat, p: Packet)
    requires p.Valid() && len + 28 < 0x1_0000
  {
    spec.payloadLen.None? && p.Len() + 28 < 0x1_0000 && HitsCarry(FieldsOf(socket, spec), len, p.Len())
  }

  /** Length the cached header is for after this send. */
  function LenAfter(info: Info, len: nat, p: Packet): nat
    requires p.Valid()
  {
    if ValidatePayload(info, p.Len()).None? then p.Len() else len
  }

  /** What the plain path submits is the template header put in front of the payload. */
  lemma PlainIsTemplate(socket: Socket, spec: Spec, resolved: Option<ResolvedL2>, p: Packet)
    requires p.Valid() && socket.l2Headroom <= p.start && PlainPrepare(socket, spec, resolved, p).Ok?
    ensures resolved.Some? && p.Len() + 28 < 0x1_0000 && p.Len() + 28 <= resolved.value.ipMtu
    ensures PrepareTxFrame(p, Template(resolved.value.l2Header, FieldsOf(socket, spec), p.Len()))
         == Some(PlainPrepare(socket, spec, resolved, p).value)
  {
    hide FieldsOf, HeaderBytes;
    PutTwice(p.frame, p.start, HeaderBytes(WithPayload(FieldsOf(socket, spec), p.Len())), resolved.value.l2Header);
  }

  /** Checksum field after this send: patched unless the length is fixed or refused. */
  function ChecksumAfter(spec: Spec, info: Info, len: nat, checksum: u16, p: Packet): u16
    requires p.Valid() && len + 28 < 0x1_0000
  {
    if spec.payloadLen.Some? || ValidatePayload(info, p.Len()).Some? then checksum
    else ReplaceWord(checksum, len + 28, p.Len() + 28)
  }

  /** Equal headers and equal frames with a header in front are the same thing. */
  lemma SameFrames(p: Packet, a: seq<byte>, b: seq<byte>)
    requires p.Valid() && |a| == |b|
    ensures PrepareTxFrame(p, a).Some? <==> PrepareTxFrame(p, b).Some?
    ensures PrepareTxFrame(p, a).Some? ==> (PrepareTxFrame(p, a) == PrepareTxFrame(p, b) <==> a == b)
  {
    if |a| <= p.start {
      var at := p.start - |a|;
      assert PutBefore(p.frame, p.start, a)[at..p.start] == a;
      assert PutBefore(p.frame, p.start, b)[at..p.start] == b;
    }
  }

  lemma HeaderLength(l2: seq<byte>, f: Fields, checksum: u16)
    ensures |WithChecksum(l2, f, checksum)| == |l2| + 28
  {
  }

  /** The endpoint path from any cached checksum: the cache follows the payload, a packet is
      refused only where the plain path refuses it or a fixed length stands against it,
      and what is submitted is what the plain path submits if and only if the checksum
      field ends up right. */
  lemma EndpointAgainstPlain(socket: Socket, spec: Spec, resolved: Option<ResolvedL2>, cache: Cache, info: Info,
                             len: nat, checksum: u16, p: Packet)
    requires p.Valid() && socket.l2Headroom <= p.start
    requires CacheWith(cache, info, socket, spec, resolved, len, checksum)
    ensures |cache.header| == cache.l2Len + 28
    ensures var (cache', sent) := EndpointPrepare(cache, info, p);
      var plain := PlainPrepare(socket, spec, resolved, p);
      var after := ChecksumAfter(spec, info, len, checksum, p);
      && CacheWith(cache', info, socket, spec, resolved, LenAfter(info, len, p), after)
      && cache'.generation == cache.generation
      && (sent.Ok? ==> LenAfter(info, len, p) == p.Len())
      && (plain.Ok? && sent.Ok? ==> (plain == sent <==> after == RightChecksum(socket, spec, p.Len())))
      && (plain.Ok? && (spec.payloadLen.Some? ==> p.Len() == spec.payloadLen.value) ==> sent.Ok?)
  {
    hide FieldsOf, WithChecksum, HeaderChecksumOf, Template, PatchLengths, ReplaceWord, PlainPrepare, PrepareTxFrame;
    var l2, f := resolved.value.l2Header, FieldsOf(socket, spec);
    HeaderLength(l2, WithPayload(f, len), checksum);
    if ValidatePayload(info, p.Len()).None? {
      if spec.payloadLen.None? { PatchedBytes(l2, f, len, p.Len(), checksum); }
      var after := ChecksumAfter(spec, info, len, checksum, p);
      var header, template := WithChecksum(l2, WithPayload(f, p.Len()), after), Template(l2, f, p.Len());
      HeaderLength(l2, WithPayload(f, p.Len()), after);
      TemplateChecksum(l2, f, p.Len());
      HeaderLength(l2, WithPayload(f, p.Len()), RightChecksum(socket, spec, p.Len()));
      OneChecksum(l2, WithPayload(f, p.Len()), after, RightChecksum(socket, spec, p.Len()));
      SameFrames(p, header, template);
    }
    if PlainPrepare(socket, spec, resolved, p).Ok? { PlainIsTemplate(socket, spec, resolved, p); }
  }

  /** Same route, fresh cache: the two paths submit the same descriptor and frame bytes if
      and only if the patch does not meet the carry case, and then the cache stays a fresh
      header; whatever the plain path accepts is within the endpoint's limits too. */
  lemma PathsAgree(socket: Socket, spec: Spec, resolved: Option<ResolvedL2>, cache: Cache, info: Info, len: nat,
                   p: Packet)
    requires p.Valid() && socket.l2Headroom <= p.start && CacheFor(cache, info, socket, spec, resolved, len)
    ensures |cache.header| == cache.l2Len + 28
    ensures var (cache', sent) := EndpointPrepare(cache, info, p);
      var plain := PlainPrepare(socket, spec, resolved, p);
      && (plain.Ok? && sent.Ok? ==> (plain == sent <==> !PatchHitsCarry(socket, spec, len, p)))
      && (!PatchHitsCarry(socket, spec, len, p) ==>
            CacheFor(cache', info, socket, spec, resolved, LenAfter(info, len, p)))
      && (plain.Ok? && (spec.payloadLen.Some? ==> p.Len() == spec.payloadLen.value) ==> sent.Ok?)
  {
    hide FieldsOf, WithChecksum, HeaderChecksumOf, HitsCarry, ReplaceWord, PlainPrepare, EndpointPrepare;
    EndpointAgainstPlain(socket, spec, resolved, cache, info, len, RightChecksum(socket, spec, len), p);
    if p.Len() + 28 < 0x1_0000 { PatchedChecksum(FieldsOf(socket, spec), len, p.Len()); }
    RefusedWhen(cache, info, p);
  }

  // ---------------------------------------------------------------- chains of sends

  /** The cached header is what these patches, in order, made of a freshly built one. */
  ghost predicate CacheAfter(cache: Cache, info: Info, socket: Socket, spec: Spec, resolved: Option<ResolvedL2>,
                             patched: seq<nat>)
  {
    && BuiltLen(spec) + 28 < 0x1_0000 && LengthsOk(patched) && (spec.payloadLen.Some? ==> patched == [])
    && CacheWith(cache, info, socket, spec, resolved, LastLen(BuiltLen(spec), patched),
                 ChainChecksum(RightChecksum(socket, spec, BuiltLen(spec)), BuiltLen(spec), patched))
  }

  /** The patch that a packet of this length causes, if any. */
  function PatchOf(spec: Spec, info: Info, p: Packet): seq<nat>
    requires p.Valid()
  {
    if spec.payloadLen.Some? || ValidatePayload(info, p.Len()).Some? then [] else [p.Len()]
  }

  /** Do these patches, in order, leave the right header? */
  ghost predicate HeaderIsRight(socket: Socket, spec: Spec, patched: seq<nat>)
  {
    && BuiltLen(spec) + 28 < 0x1_0000 && LengthsOk(patched)
    && ChainIsRight(FieldsOf(socket, spec), BuiltLen(spec), patched)
  }

  /** After any chain of patches: what the endpoint path submits is what the plain path
      submits if and only if the chain, this packet's patch included, is right. */
  lemma PathsAgreeAfter(socket: Socket, spec: Spec, resolved: Option<ResolvedL2>, cache: Cache, info: Info,
                        patched: seq<nat>, p: Packet)
    requires p.Valid() && socket.l2Headroom <= p.start && CacheAfter(cache, info, socket, spec, resolved, patched)
    ensures |cache.header| == cache.l2Len + 28
    ensures var (cache', sent) := EndpointPrepare(cache, info, p);
      var plain := PlainPrepare(socket, spec, resolved, p);
      var patched' := patched + PatchOf(spec, info, p);
      && CacheAfter(cache', info, socket, spec, resolved, patched') && cache'.generation == cache.generation
      && (plain.Ok? && sent.Ok? ==> (plain == sent <==> HeaderIsRight(socket, spec, patched')))
      && (plain.Ok? && (spec.payloadLen.Some? ==> p.Len() == spec.payloadLen.value) ==> sent.Ok?)
  {
    hide FieldsOf, WithChecksum, HeaderChecksumOf, ReplaceWord, PlainPrepare, EndpointPrepare;
    hide ChainChecksum, ChainIsRight;
    var start := BuiltLen(spec);
    var right := RightChecksum(socket, spec, start);
    var len := LastLen(start, patched);
    var checksum := ChainChecksum(right, start, patched);
    EndpointAgainstPlain(socket, spec, resolved, cache, info, len, checksum, p);
    var patched' := patched + PatchOf(spec, info, p);
    if ValidatePayload(info, p.Len()).None? && spec.payloadLen.None? {
      ChainAppend(right, start, patched, p.Len());
    } else {
      assert patched' == patched;
    }
    ChainChecksumRight(FieldsOf(socket, spec), start, patched');
  }
}
