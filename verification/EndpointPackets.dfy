/** What is on the wire: every packet that either path submits, read back by the receiver's parser,
    is what the caller asked for, behind the header of the way out; and which packets are
    refused. */
module EndpointPackets {
  import opened Wrappers
  import opened Egress
  import opened Checksum
  import opened Headers
  import opened Parser
  import opened WireFormat
  import opened Routes
  import opened RouteSnapshot
  import opened Endpoint
  import opened Bits
  import opened Umem
  import FrameProtocol

  // ---------------------------------------------------------------- the resolved route

  /** The header is that of the one way out, and the MTU the smallest of socket, route and
      interface. */
  ghost predicate RoutedBy(facts: Facts, socket: Socket, dst: Ipv4, header: seq<byte>, mtu: nat)
  {
    exists m: nat :: HeaderFor(facts, dst, socket.ifindex, header, m) && mtu == Min(socket.mtu, m)
  }

  lemma ResolveMeans(facts: Facts, socket: Socket, dst: Ipv4)
    requires FactsOk(facts)
    ensures match Resolve(facts, socket, dst)
      case None => NoWayOut(facts, dst, socket.ifindex)
      case Some(r) => RoutedBy(facts, socket, dst, r.l2Header, r.ipMtu)
  {
    SearchMeans(facts, dst, socket.ifindex, 0);
    hide NoWayOut, HeaderFor;
    match PlainSearch(facts, dst, socket.ifindex, 0)
    case None =>
    case Some(e) => assert HeaderFor(facts, dst, socket.ifindex, EthernetHeader(e), e.mtu);
  }

  /** A resolved header is 14 bytes long and ends with the IPv4 ethertype. */
  lemma ResolvedIsIpv4(facts: Facts, socket: Socket, dst: Ipv4)
    requires Resolve(facts, socket, dst).Some?
    ensures var l2 := Resolve(facts, socket, dst).value.l2Header; |l2| == 14 && l2[12] == 8 && l2[13] == 0
  {
    EthernetLayout(PlainSearch(facts, dst, socket.ifindex, 0).value);
    hide EthernetHeader;
  }

  // ---------------------------------------------------------------- the submitted bytes

  /** The address as a number, first octet highest. */
  function Address(octets: Octets): nat
  {
    ((octets[0] as nat * 256 + octets[1] as nat) * 256 + octets[2] as nat) * 256 + octets[3] as nat
  }

  lemma AddressOfOctets(ip: Ipv4)
    ensures Address(OctetsOf(ip)) == ip
  {
    var a, b := ip / 0x100, ip / 0x1_0000;
    assert ip == 256 * a + ip % 0x100;
    assert a == 256 * b + a % 0x100;
    assert b == 256 * (ip / 0x100_0000) + b % 0x100;
  }

  /** The descriptor ends where the payload ends, and starts in the frame. */
  predicate DescOk(p: Packet, sent: Submitted)
    requires p.Valid()
  {
    && |sent.frame| == |p.frame| && p.frameAddr <= sent.desc.addr <= p.frameAddr + p.start
    && sent.desc.addr + sent.desc.len == p.frameAddr + p.end
  }

  /** The bytes the descriptor covers. */
  function Wire(p: Packet, sent: Submitted): seq<byte>
    requires p.Valid() && DescOk(p, sent)
  {
    sent.frame[sent.desc.addr - p.frameAddr..p.end]
  }

  /** The bytes carry the payload to the destination asked for, from the source asked for or else the
      socket's, with the ECN asked for and the socket's TTL. */
  ghost predicate CarriesSpec(socket: Socket, spec: Spec, p: Packet, wire: seq<byte>)
    requires p.Valid()
  {
    |wire| == 42 + p.Len() && wire[22] == socket.ttl
    && var r := ParseEthernetIpv4Udp(wire);
    && r.Udp?
    && Address(r.parsed.destination) == spec.destination && r.parsed.destinationPort == spec.destinationPort
    && r.parsed.source == (match spec.source case Some(source) => source case None => socket.address)
    && r.parsed.sourcePort == (match spec.sourcePort case Some(port) => port case None => socket.port)
    && r.parsed.ecn == (match spec.ecn case Some(ecn) => ecn case None => NotEct)
    && wire[r.parsed.payloadOffset..r.parsed.payloadOffset + r.parsed.payloadLen] == p.frame[p.start..p.end]
  }

  /** What was submitted is on the wire as asked for, and no other byte of the frame changed. */
  ghost predicate OnTheWire(facts: Facts, socket: Socket, spec: Spec, p: Packet, sent: Submitted)
    requires p.Valid()
  {
    && DescOk(p, sent)
    && var wire := Wire(p, sent);
    && CarriesSpec(socket, spec, p, wire)
    && sent.frame == p.frame[..p.end - |wire|] + wire + p.frame[p.end..]
    && (FactsOk(facts) ==>
          exists mtu: nat :: RoutedBy(facts, socket, spec.destination, wire[..14], mtu) && |wire| - 14 <= mtu)
  }

  /** The ten 16-bit numbers of the IPv4 header add up to a multiple of 65535 (RFC 1071). */
  predicate ChecksumVerifies(wire: seq<byte>)
    requires |wire| >= 34
  {
    var sum := Number(wire, 14) + Number(wire, 16) + Number(wire, 18) + Number(wire, 20) + Number(wire, 22)
      + Number(wire, 24) + Number(wire, 26) + Number(wire, 28) + Number(wire, 30) + Number(wire, 32);
    sum > 0 && sum % 65535 == 0
  }

  /** A frame with a 42-byte header put in front of the payload. */
  lemma PreparedBytes(p: Packet, header: seq<byte>)
    requires p.Valid() && |header| == 42 && PrepareTxFrame(p, header).Some?
    ensures var sent := PrepareTxFrame(p, header).value;
      && DescOk(p, sent) && Wire(p, sent) == header + p.frame[p.start..p.end]
      && sent.frame == p.frame[..p.start - 42] + Wire(p, sent) + p.frame[p.end..]
  {
  }

  /** A header with the fields asked for carries them. */
  lemma HeaderCarriesSpec(socket: Socket, spec: Spec, l2: seq<byte>, checksum: u16, p: Packet)
    requires p.Valid() && p.Len() + 28 < 0x1_0000 && |l2| == 14 && l2[12] == 8 && l2[13] == 0
    ensures CarriesSpec(socket, spec, p, WithChecksum(l2, WithPayload(FieldsOf(socket, spec), p.Len()), checksum)
                                         + p.frame[p.start..p.end])
  {
    hide WithChecksum, ParseEthernetIpv4Udp, OctetsOf, Address;
    var f := WithPayload(FieldsOf(socket, spec), p.Len());
    AddressOfOctets(spec.destination);
    WireParses(l2, f, checksum, p.frame[p.start..p.end]);
  }

  /** So does whatever is submitted with such a header under the facts. */
  lemma SubmittedOnTheWire(facts: Facts, socket: Socket, spec: Spec, checksum: u16, p: Packet)
    requires p.Valid() && Resolve(facts, socket, spec.destination).Some?
    requires p.Len() + 28 <= Min(Resolve(facts, socket, spec.destination).value.ipMtu, 0xFFFF)
    ensures var l2 := Resolve(facts, socket, spec.destination).value.l2Header;
      var sent := PrepareTxFrame(p, WithChecksum(l2, WithPayload(FieldsOf(socket, spec), p.Len()), checksum));
      sent.Some? ==> OnTheWire(facts, socket, spec, p, sent.value)
  {
    hide FieldsOf, CarriesSpec, Resolve, RoutedBy, WithChecksum, PrepareTxFrame;
    var r := Resolve(facts, socket, spec.destination).value;
    ResolvedIsIpv4(facts, socket, spec.destination);
    var header := WithChecksum(r.l2Header, WithPayload(FieldsOf(socket, spec), p.Len()), checksum);
    WithChecksumStarts(r.l2Header, WithPayload(FieldsOf(socket, spec), p.Len()), checksum);
    HeaderCarriesSpec(socket, spec, r.l2Header, checksum, p);
    if PrepareTxFrame(p, header).Some? {
      PreparedBytes(p, header);
      if FactsOk(facts) {
        ResolveMeans(facts, socket, spec.destination);
        assert (header + p.frame[p.start..p.end])[..14] == r.l2Header;
      }
    }
  }

  lemma WithChecksumStarts(l2: seq<byte>, f: Fields, checksum: u16)
    ensures |WithChecksum(l2, f, checksum)| == |l2| + 28 && WithChecksum(l2, f, checksum)[..|l2|] == l2
  {
  }

  // ---------------------------------------------------------------- checksums

  /** The right checksum field makes the header verify. */
  lemma RightChecksumVerifies(l2: seq<byte>, f: Fields, payload: seq<byte>)
    requires |l2| == 14
    ensures ChecksumVerifies(WithChecksum(l2, f, HeaderChecksumOf(f)) + payload)
  {
    hide IpHeaderWith, HeaderChecksumOf, UdpHeader, Canon;
    var ip, c := IpHeaderWith(f, HeaderChecksumOf(f)), HeaderChecksumOf(f);
    var wire := WithChecksum(l2, f, c) + payload;
    assert wire == l2 + ip + UdpHeader(f) + payload;
    assert forall i :: 0 <= i < 20 ==> wire[14 + i] == ip[i];
    IpPart(f);
    WrittenHeaderVerifies(f);
    TenWords(ip);
    VerifiedSum(WordSum(ip, 10));
  }

  lemma TenWords(ip: seq<byte>)
    requires |ip| == 20
    ensures WordSum(ip, 10) == Number(ip, 0) + Number(ip, 2) + Number(ip, 4) + Number(ip, 6) + Number(ip, 8)
      + Number(ip, 10) + Number(ip, 12) + Number(ip, 14) + Number(ip, 16) + Number(ip, 18)
  {
    hide Word, Number;
    assert forall k :: 0 <= k <= 18 ==> Number(ip, k) == Word(ip, k) by {
      forall k | 0 <= k <= 18
        ensures Number(ip, k) == Word(ip, k)
      {
        NumberIsWord(ip, k);
      }
    }
    assert WordSum(ip, 1) == Word(ip, 0);
    assert WordSum(ip, 2) == Word(ip, 0) + Word(ip, 2);
    assert WordSum(ip, 4) == WordSum(ip, 2) + Word(ip, 4) + Word(ip, 6);
    assert WordSum(ip, 6) == WordSum(ip, 4) + Word(ip, 8) + Word(ip, 10);
    assert WordSum(ip, 8) == WordSum(ip, 6) + Word(ip, 12) + Word(ip, 14);
    assert WordSum(ip, 10) == WordSum(ip, 8) + Word(ip, 16) + Word(ip, 18);
  }

  lemma VerifiedSum(sum: nat)
    requires Not(Canon(sum)) == 0
    ensures sum > 0 && sum % 65535 == 0
  {
  }

  // ---------------------------------------------------------------- the two paths

  /** Every packet the plain path submits is on the wire as asked for, with a checksum that
      verifies. */
  lemma PlainOnTheWire(facts: Facts, socket: Socket, spec: Spec, p: Packet)
    requires p.Valid() && socket.l2Headroom <= p.start
    requires PlainPrepare(socket, spec, Resolve(facts, socket, spec.destination), p).Ok?
    ensures var sent := PlainPrepare(socket, spec, Resolve(facts, socket, spec.destination), p).value;
      OnTheWire(facts, socket, spec, p, sent) && ChecksumVerifies(Wire(p, sent))
  {
    hide FieldsOf, Resolve, HeaderChecksumOf, WithChecksum, Template, PrepareTxFrame, PlainPrepare, OnTheWire;
    var r, f := Resolve(facts, socket, spec.destination), FieldsOf(socket, spec);
    PlainIsTemplate(socket, spec, r, p);
    var g := WithPayload(f, p.Len());
    TemplateChecksum(r.value.l2Header, f, p.Len());
    SubmittedOnTheWire(facts, socket, spec, HeaderChecksumOf(g), p);
    WithRightChecksum(facts, socket, spec, p);
  }

  lemma WithRightChecksum(facts: Facts, socket: Socket, spec: Spec, p: Packet)
    requires p.Valid() && p.Len() + 28 < 0x1_0000 && Resolve(facts, socket, spec.destination).Some?
    ensures var g := WithPayload(FieldsOf(socket, spec), p.Len());
      var header := WithChecksum(Resolve(facts, socket, spec.destination).value.l2Header, g, HeaderChecksumOf(g));
      var sent := PrepareTxFrame(p, header);
      sent.Some? ==> DescOk(p, sent.value) && |Wire(p, sent.value)| >= 34 && ChecksumVerifies(Wire(p, sent.value))
  {
    hide FieldsOf, Resolve, HeaderChecksumOf, WithChecksum, PrepareTxFrame;
    var l2, g := Resolve(facts, socket, spec.destination).value.l2Header, WithPayload(FieldsOf(socket, spec), p.Len());
    ResolvedIsIpv4(facts, socket, spec.destination);
    WithChecksumStarts(l2, g, HeaderChecksumOf(g));
    var header := WithChecksum(l2, g, HeaderChecksumOf(g));
    if PrepareTxFrame(p, header).Some? {
      PreparedBytes(p, header);
      RightChecksumVerifies(l2, g, p.frame[p.start..p.end]);
    }
  }

  /** So is every packet submitted with a cached header, whatever patches it has been
      through; its checksum verifies when they left the right header. */
  lemma EndpointOnTheWire(facts: Facts, socket: Socket, spec: Spec, cache: Cache, info: Info, patched: seq<nat>,
                          p: Packet)
    requires p.Valid() && socket.l2Headroom <= p.start
    requires CacheAfter(cache, info, socket, spec, Resolve(facts, socket, spec.destination), patched)
    requires |cache.header| == cache.l2Len + 28 && EndpointPrepare(cache, info, p).1.Ok?
    ensures var sent := EndpointPrepare(cache, info, p).1.value;
      && OnTheWire(facts, socket, spec, p, sent)
      && (HeaderIsRight(socket, spec, patched + PatchOf(spec, info, p)) ==> ChecksumVerifies(Wire(p, sent)))
  {
    hide FieldsOf, Resolve, HeaderChecksumOf, WithChecksum, PrepareTxFrame, OnTheWire, ChainChecksum, ChainIsRight;
    var patched' := patched + PatchOf(spec, info, p);
    var resolved, f := Resolve(facts, socket, spec.destination), FieldsOf(socket, spec);
    SentWithHeader(socket, spec, resolved, cache, info, patched, p);
    var c := ChainChecksum(RightChecksum(socket, spec, BuiltLen(spec)), BuiltLen(spec), patched');
    SubmittedOnTheWire(facts, socket, spec, c, p);
    ChainChecksumRight(f, BuiltLen(spec), patched');
    WithRightChecksum(facts, socket, spec, p);
  }

  /** What the endpoint path submits has the header of this length, with the checksum field the
      patches left. */
  lemma SentWithHeader(socket: Socket, spec: Spec, resolved: Option<ResolvedL2>, cache: Cache, info: Info,
                       patched: seq<nat>, p: Packet)
    requires p.Valid() && socket.l2Headroom <= p.start && CacheAfter(cache, info, socket, spec, resolved, patched)
    requires |cache.header| == cache.l2Len + 28 && EndpointPrepare(cache, info, p).1.Ok?
    ensures resolved.Some? && p.Len() + 28 <= Min(resolved.value.ipMtu, 0xFFFF) && BuiltLen(spec) + 28 < 0x1_0000
    ensures var patched' := patched + PatchOf(spec, info, p);
      && LengthsOk(patched') && LastLen(BuiltLen(spec), patched') == p.Len()
      && var c := ChainChecksum(RightChecksum(socket, spec, BuiltLen(spec)), BuiltLen(spec), patched');
      PrepareTxFrame(p, WithChecksum(resolved.value.l2Header, WithPayload(FieldsOf(socket, spec), p.Len()), c))
        == Some(EndpointPrepare(cache, info, p).1.value)
  {
    hide FieldsOf, HeaderChecksumOf, WithChecksum, PrepareTxFrame, ChainChecksum, ChainIsRight, PlainPrepare;
    var start := BuiltLen(spec);
    var right := RightChecksum(socket, spec, start);
    EndpointAgainstPlain(socket, spec, resolved, cache, info, LastLen(start, patched),
                         ChainChecksum(right, start, patched), p);
    if spec.payloadLen.None? {
      ChainAppend(right, start, patched, p.Len());
    } else {
      assert patched + PatchOf(spec, info, p) == patched;
    }
  }

  // ---------------------------------------------------------------- what is refused

  /** The plain path needs a way out, an IP datagram within its MTU and within 16 bits, and room in front of
      the payload: for the IP and UDP headers behind the reserved headroom, and for all headers
      in the frame.  Each refusal names what is missing. */
  lemma PlainAcceptsIff(facts: Facts, socket: Socket, spec: Spec, p: Packet)
    requires p.Valid() && socket.l2Headroom <= p.start && FactsOk(facts)
    ensures var r := PlainPrepare(socket, spec, Resolve(facts, socket, spec.destination), p);
      && (r == Err(NoEgressRoute) <==> NoWayOut(facts, spec.destination, socket.ifindex))
      && forall header, mtu: nat :: RoutedBy(facts, socket, spec.destination, header, mtu) ==>
           var fits := p.Len() + 28 <= mtu && p.Len() + 28 <= 0xFFFF;
           && (r.Ok? <==> fits && socket.l2Headroom + 28 <= p.start && 42 <= p.start)
           && (r == Err(OversizeForMtu) <==> !fits && mtu >= 28)
           && (r == Err(InvalidPacket) <==> mtu < 28 || (fits && socket.l2Headroom + 28 > p.start))
           && (r == Err(Backend) <==> fits && socket.l2Headroom + 28 <= p.start < 42)
  {
    hide FieldsOf, Resolve, NoWayOut, RoutedBy, HeaderBytes;
    var resolved := Resolve(facts, socket, spec.destination);
    ResolveMeans(facts, socket, spec.destination);
    if resolved.None? {
      NeverBoth(facts, socket, spec.destination);
    } else {
      ResolvedIsIpv4(facts, socket, spec.destination);
      OneRoute(facts, socket, spec.destination, resolved.value.l2Header, resolved.value.ipMtu);
      NeverBoth(facts, socket, spec.destination);
    }
  }

  lemma NeverBoth(facts: Facts, socket: Socket, dst: Ipv4)
    ensures NoWayOut(facts, dst, socket.ifindex) ==>
              forall header, mtu: nat :: !RoutedBy(facts, socket, dst, header, mtu)
  {
    hide WayOut;
  }

  lemma OneRoute(facts: Facts, socket: Socket, dst: Ipv4, header: seq<byte>, mtu: nat)
    requires RoutedBy(facts, socket, dst, header, mtu)
    ensures forall h, n: nat :: RoutedBy(facts, socket, dst, h, n) ==> h == header && n == mtu
  {
    hide HeaderFor;
    var m: nat :| HeaderFor(facts, dst, socket.ifindex, header, m) && mtu == Min(socket.mtu, m);
    forall h, n: nat | RoutedBy(facts, socket, dst, h, n)
      ensures h == header && n == mtu
    {
      var m': nat :| HeaderFor(facts, dst, socket.ifindex, h, m') && n == Min(socket.mtu, m');
      OneHeader(facts, dst, socket.ifindex, header, m, h, m');
    }
  }

  // ---------------------------------------------------------------- link to the frame protocol

  /** The packet's frame is aligned and of the UMEM's frame size, and putting this header in
      front gives this descriptor. */
  ghost predicate Prepares(l: FrameProtocol.Layout, p: Packet, header: seq<byte>, desc: XdpDesc)
    requires IsPow2(l.frameSize)
  {
    && p.Valid() && |p.frame| == l.frameSize && p.frameAddr == FrameBase(desc.addr, l.frameSize) && |header| >= 14
    && PrepareTxFrame(p, header).Some? && PrepareTxFrame(p, header).value.desc == desc
  }

  /** The frame protocol lets a descriptor be submitted exactly when some packet and Ethernet
      header give it. */
  lemma SubmittableIff(l: FrameProtocol.Layout, desc: XdpDesc)
    requires IsPow2(l.frameSize)
    ensures FrameProtocol.Submittable(l, desc) <==> exists p, header :: Prepares(l, p, header, desc)
  {
    hide IsPow2;
    if FrameProtocol.Submittable(l, desc) {
      var base := FrameBase(desc.addr, l.frameSize);
      var offset := desc.addr - base;
      var frame: seq<byte>, header: seq<byte> := seq(l.frameSize, _ => 0), seq(14, _ => 0);
      assert Prepares(l, Packet(base, offset + 14, offset + desc.len, frame), header, desc);
    }
  }
}
