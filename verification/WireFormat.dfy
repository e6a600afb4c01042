/** The bytes on the wire, told by the numbers of the standards: what the parsers answer for every
    packet, and where the built headers carry each field. */
module WireFormat {
  import opened Bits
  import opened Wrappers
  import opened Egress
  import opened Checksum
  import opened Headers
  import opened Parser

  // ---------------------------------------------------------------- IPv4 and UDP

  /** The big-endian number in two bytes. */
  function Number(bytes: seq<byte>, at: nat): nat
    requires at + 2 <= |bytes|
  {
    var hi: nat, lo: nat := bytes[at], bytes[at + 1];
    256 * hi + lo
  }

  lemma NumberIsWord(bytes: seq<byte>, at: nat)
    requires at + 2 <= |bytes|
    ensures Number(bytes, at) == Word(bytes, at)
  {
  }

  function HeaderLen(packet: seq<byte>): nat
    requires packet != []
  {
    packet[0] % 16 * 4
  }

  function TotalLen(packet: seq<byte>): nat
    requires |packet| >= 4
  {
    Number(packet, 2)
  }

  /** Version 4, a header of at least five words inside the packet, and a total length between the
      header and the packet (section 3.1 of RFC 791). */
  predicate IsIpv4(packet: seq<byte>)
  {
    && |packet| >= 20 && packet[0] / 16 == 4 && packet[0] % 16 >= 5
    && HeaderLen(packet) <= TotalLen(packet) <= |packet|
  }

  /** More fragments follow, or this one does not start the datagram (section 3.1 of RFC 791). */
  predicate IsFragment(packet: seq<byte>)
    requires |packet| >= 8
  {
    packet[6] / 32 % 2 == 1 || Number(packet, 6) % 0x2000 != 0
  }

  /** Protocol 17 and a UDP length between the UDP header and the end of the datagram (RFC 768). */
  predicate IsUdp(packet: seq<byte>)
    requires IsIpv4(packet)
  {
    var h := HeaderLen(packet);
    && packet[9] == 17 && h + 8 <= TotalLen(packet)
    && 8 <= Number(packet, h + 4) <= TotalLen(packet) - h
  }

  /** The codepoint of the last two bits of the second byte (section 5 of RFC 3168). */
  function Codepoint(packet: seq<byte>): Ecn
    requires |packet| >= 2
  {
    match packet[1] % 4 case 0 => NotEct case 1 => Ect1 case 2 => Ect0 case _ => Ce
  }

  /** The fragment test is on the more-fragments bit and the offset, not on the don't-fragment bit. */
  lemma FragmentBits(packet: seq<byte>)
    requires |packet| >= 8
    ensures Word(packet, 6) % FRAGMENT_BITS != 0 <==> IsFragment(packet)
  {
    NumberIsWord(packet, 6);
    LowFourteenBits(packet[6], packet[7]);
  }

  lemma LowFourteenBits(hi: nat, lo: nat)
    requires lo < 256
    ensures (256 * hi + lo) % 0x4000 != 0 <==> hi / 32 % 2 == 1 || (256 * hi + lo) % 0x2000 != 0
  {
    var q, bit, low := hi / 64, hi / 32 % 2, hi % 32;
    assert hi == 64 * q + 32 * bit + low;
    DivModUnique(256 * hi + lo, 0x4000, q, 0x2000 * bit + (256 * low + lo));
    DivModUnique(256 * hi + lo, 0x2000, 2 * q + bit, 256 * low + lo);
  }

  /** The answer of the IPv4 parser for every byte string. */
  lemma ParseIpv4UdpExact(packet: seq<byte>)
    ensures var r := ParseIpv4Udp(packet);
      && (r == Fragment <==> IsIpv4(packet) && IsFragment(packet))
      && (r.Udp? <==> IsIpv4(packet) && !IsFragment(packet) && IsUdp(packet))
      && (r.Udp? ==>
            var h := HeaderLen(packet); var p := r.parsed;
            && p.source == packet[12..16] && p.destination == packet[16..20] && p.ecn == Codepoint(packet)
            && p.sourcePort == Number(packet, h)
            && p.destinationPort == Number(packet, h + 2)
            && p.payloadOffset == h + 8 && p.payloadLen == Number(packet, h + 4) - 8
            && p.ipLen == TotalLen(packet))
  {
    hide Word, Number, IsFragment;
    if |packet| >= 20 {
      var h := HeaderLen(packet);
      FragmentBits(packet);
      NumberIsWord(packet, 2);
      if h + 8 <= |packet| {
        NumberIsWord(packet, h);
        NumberIsWord(packet, h + 2);
        NumberIsWord(packet, h + 4);
      }
    }
  }

  /** The don't-fragment bit set. */
  function DontFragment(packet: seq<byte>, at: nat): seq<byte>
    requires at < |packet| && packet[at] / 64 % 2 == 0
  {
    packet[at := packet[at] + 64]
  }

  /** Setting it changes nothing that the parser answers. */
  lemma DontFragmentIgnored(packet: seq<byte>)
    requires |packet| >= 8 && packet[6] / 64 % 2 == 0
    ensures ParseIpv4Udp(DontFragment(packet, 6)) == ParseIpv4Udp(packet)
  {
    hide ParseIpv4Udp, IsFragment;
    var other := DontFragment(packet, 6);
    ParseIpv4UdpExact(packet);
    ParseIpv4UdpExact(other);
    StaysFragment(packet, other, packet[6]);
    if |packet| >= 20 {
      assert other[12..16] == packet[12..16] && other[16..20] == packet[16..20];
    }
  }

  lemma StaysFragment(packet: seq<byte>, other: seq<byte>, hi: nat)
    requires |packet| >= 8 && |other| >= 8 && hi == packet[6] && other[6] == hi + 64 && other[7] == packet[7]
    ensures IsFragment(other) <==> IsFragment(packet)
  {
    assert (hi + 64) / 32 % 2 == hi / 32 % 2;
    assert Number(other, 6) == 0x2000 * 2 + Number(packet, 6);
  }

  // ---------------------------------------------------------------- Ethernet

  predicate Ipv4At(frame: seq<byte>, at: nat) { at + 2 <= |frame| && frame[at] == 8 && frame[at + 1] == 0 }

  predicate TagAt(frame: seq<byte>, at: nat) { at + 2 <= |frame| && frame[at] == 0x81 && frame[at + 1] == 0 }

  predicate ServiceTagAt(frame: seq<byte>, at: nat) { at + 2 <= |frame| && frame[at] == 0x88 && frame[at + 1] == 0xa8 }

  /** Length of the Ethernet header of an IPv4 frame in userspace: plain or with one 802.1Q tag. */
  function Ipv4Offset(frame: seq<byte>): Option<nat>
  {
    if Ipv4At(frame, 12) then Some(14)
    else if TagAt(frame, 12) && Ipv4At(frame, 16) then Some(18)
    else None
  }

  /** The same in the filter, which also takes an 802.1ad tag, alone or before an 802.1Q tag. */
  function FilterOffset(frame: seq<byte>): Option<nat>
  {
    if Ipv4Offset(frame).Some? then Ipv4Offset(frame)
    else if ServiceTagAt(frame, 12) && Ipv4At(frame, 16) then Some(18)
    else if ServiceTagAt(frame, 12) && TagAt(frame, 16) && Ipv4At(frame, 20) then Some(22)
    else None
  }

  /** The frame parser answers as the IPv4 parser does on what follows the Ethernet header, with the payload
      moved by its length, and drops every other frame. */
  lemma ParseEthernetExact(frame: seq<byte>)
    ensures var r := ParseEthernetIpv4Udp(frame);
      match Ipv4Offset(frame)
      case None => r == Drop
      case Some(at) =>
        && at <= |frame|
        && match ParseIpv4Udp(frame[at..])
           case Udp(p) => r == Udp(p.(payloadOffset := at + p.payloadOffset))
           case other => r == other
  {
    hide ParseIpv4Udp;
  }

  /** The filter looks up a port exactly for unfragmented IPv4 frames with protocol 17 whose UDP header is in the
      frame, and it is the destination port. */
  lemma EbpfPortExact(frame: seq<byte>)
    ensures match FilterOffset(frame)
      case None => EbpfPort(frame) == None
      case Some(at) =>
        && at <= |frame|
        && var packet := frame[at..];
        if && |packet| >= 20 && packet[0] / 16 == 4 && packet[0] % 16 >= 5 && !IsFragment(packet)
           && packet[9] == 17 && HeaderLen(packet) + 8 <= |packet|
        then EbpfPort(frame)
          == Some(Number(packet, HeaderLen(packet) + 2))
        else EbpfPort(frame) == None
  {
    hide PacketEthertype, FilterOffset, Word, Number, IsFragment;
    FilterEthertype(frame);
    if FilterOffset(frame).Some? && FilterOffset(frame).value + 20 <= |frame| {
      var at := FilterOffset(frame).value;
      var packet := frame[at..];
      var h := HeaderLen(packet);
      FragmentBits(packet);
      ShiftedWords(frame, at, 6);
      if h + 8 <= |packet| {
        NumberIsWord(packet, h + 2);
        ShiftedWords(frame, at, h + 2);
      }
    }
  }

  lemma FilterEthertype(frame: seq<byte>)
    ensures match FilterOffset(frame)
      case None => PacketEthertype(frame).None? || PacketEthertype(frame).value.0 != ETHERTYPE_IPV4
      case Some(at) => at <= |frame| && PacketEthertype(frame) == Some((ETHERTYPE_IPV4, at))
  {
  }

  /** No fragment of any kind reaches the port lookup. */
  lemma FilterSkipsFragments(frame: seq<byte>)
    requires FilterOffset(frame).Some? && FilterOffset(frame).value + 20 <= |frame|
    requires IsFragment(frame[FilterOffset(frame).value..])
    ensures EbpfPort(frame) == None
  {
    EbpfPortExact(frame);
  }

  /** And setting the don't-fragment bit does not change the lookup. */
  lemma FilterIgnoresDontFragment(frame: seq<byte>, at: nat)
    requires FilterOffset(frame) == Some(at) && at + 20 <= |frame| && frame[at + 6] / 64 % 2 == 0
    ensures EbpfPort(DontFragment(frame, at + 6)) == EbpfPort(frame)
  {
    hide EbpfPort, IsFragment, Number;
    var other := DontFragment(frame, at + 6);
    EbpfPortExact(frame);
    EbpfPortExact(other);
    assert FilterOffset(other) == Some(at);
    StaysFragment(frame[at..], other[at..], frame[at + 6]);
    DontFragmentKeepsPort(frame, other, at);
  }

  lemma DontFragmentKeepsPort(frame: seq<byte>, other: seq<byte>, at: nat)
    requires at + 20 <= |frame| == |other| && other == frame[at + 6 := other[at + 6]]
    ensures HeaderLen(other[at..]) == HeaderLen(frame[at..])
    ensures var h := HeaderLen(frame[at..]);
      h >= 20 && at + h + 8 <= |frame| ==> Number(other[at..], h + 2) == Number(frame[at..], h + 2)
  {
  }

  // ---------------------------------------------------------------- built headers

  /** Where an IPv4 and UDP header carries each field (section 3.1 of RFC 791, RFC 768 and
      section 5 of RFC 3168), whatever its checksum field says. */
  lemma HeaderLayout(f: Fields, checksum: u16)
    ensures var h := IpHeaderWith(f, checksum) + UdpHeader(f);
      && h[0] == 0x45 && Number(h, 2) == f.totalLen && h[4..8] == [0, 0, 0, 0] && h[8] == f.ttl && h[9] == 17
      && h[1] == (match f.ecn case Some(Ect1) => 1 case Some(Ect0) => 2 case Some(Ce) => 3 case _ => 0)
      && Number(h, 10) == checksum && h[12..16] == f.source && h[16..20] == f.destination
      && Number(h, 20) == f.sourcePort && Number(h, 22) == f.destinationPort
      && Number(h, 24) == f.udpLen && h[26..28] == [0, 0]
  {
    var h := IpHeaderWith(f, checksum) + UdpHeader(f);
    assert h[12..16] == f.source && h[16..20] == f.destination;
  }

  /** A datagram with such a header parses to its fields, whatever the checksum field says: the parser does not
      look at it. */
  lemma ParseBuilt(f: Fields, checksum: u16, payload: seq<byte>)
    requires f.totalLen == |payload| + 28 && f.udpLen == |payload| + 8
    ensures ParseIpv4Udp(IpHeaderWith(f, checksum) + UdpHeader(f) + payload)
         == Udp(Parsed(f.source, f.destination, f.sourcePort, f.destinationPort, |payload| + 28, 28, |payload|,
                       match f.ecn case Some(ecn) => ecn case None => NotEct))
  {
    hide IpHeaderWith, UdpHeader, ParseIpv4Udp;
    var h := IpHeaderWith(f, checksum) + UdpHeader(f);
    var packet := h + payload;
    HeaderLayout(f, checksum);
    assert forall i :: 0 <= i < 28 ==> packet[i] == h[i];
    assert packet[12..16] == h[12..16] && packet[16..20] == h[16..20];
    assert h[6] == h[4..8][2] && h[7] == h[4..8][3];
    ParseIpv4UdpExact(packet);
  }

  /** Such a header and a payload of its length parse to its fields and that payload. */
  lemma WireParses(l2: seq<byte>, f: Fields, checksum: u16, payload: seq<byte>)
    requires |l2| == 14 && l2[12] == 8 && l2[13] == 0 && f.totalLen == |payload| + 28 && f.udpLen == |payload| + 8
    ensures var wire := WithChecksum(l2, f, checksum) + payload; var r := ParseEthernetIpv4Udp(wire);
      && |wire| == 42 + |payload| && wire[..14] == l2 && wire[22] == f.ttl
      && r == Udp(Parsed(f.source, f.destination, f.sourcePort, f.destinationPort, |payload| + 28, 42, |payload|,
                         match f.ecn case Some(ecn) => ecn case None => NotEct))
      && wire[42..42 + |payload|] == payload
  {
    hide IpHeaderWith, UdpHeader, ParseIpv4Udp, ParseEthernetIpv4Udp;
    var packet := IpHeaderWith(f, checksum) + UdpHeader(f) + payload;
    var wire := WithChecksum(l2, f, checksum) + payload;
    assert wire == l2 + packet && wire[14..] == packet && wire[12] == 8 && wire[13] == 0 && wire[..14] == l2;
    HeaderLayout(f, checksum);
    assert wire[22] == (IpHeaderWith(f, checksum) + UdpHeader(f))[8];
    ParseBuilt(f, checksum, payload);
    ParseEthernetExact(wire);
  }

  /** Where a built Ethernet header carries each field, with and without an 802.1Q tag. */
  lemma EthernetLayout(e: XdpEgress)
    ensures var h := EthernetHeader(e);
      && h[..6] == e.dstMac && h[6..12] == e.srcMac
      && |h| == (if e.vlan.Some? then 18 else 14)
      && (e.vlan.Some? ==> h[12..14] == [0x81, 0] && Number(h, 14) == e.vlan.value
                           && Number(h, 16) == e.ethertype)
      && (e.vlan.None? ==> Number(h, 12) == e.ethertype)
  {
    var h := EthernetHeader(e);
    assert h[..6] == e.dstMac && h[6..12] == e.srcMac;
  }
}
