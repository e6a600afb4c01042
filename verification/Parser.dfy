/** Parsing UDP frames in userspace and in the eBPF port filter. */
module Parser {
  import opened Wrappers
  import opened Egress
  import opened Checksum
  import opened Headers

  datatype Parsed = Parsed(source: Octets, destination: Octets, sourcePort: u16, destinationPort: u16,
                           ipLen: nat, payloadOffset: nat, payloadLen: nat, ecn: Ecn)

  datatype UdpParse = Udp(parsed: Parsed) | Fragment | Drop

  /** Header length in bytes from the first header byte. */
  function Ihl(first: byte): nat { first % 16 * 4 }

  /** `parse_ipv4_udp_datagram`. */
  function ParseIpv4Udp(packet: seq<byte>): (r: UdpParse)
    ensures r.Udp? ==> r.parsed.payloadOffset + r.parsed.payloadLen <= r.parsed.ipLen <= |packet|
  {
    if |packet| < IPV4_MIN_HEADER_LEN then Drop
    else if packet[0] / 16 != 4 then Drop
    else
      var ihl := Ihl(packet[0]);
      if ihl < IPV4_MIN_HEADER_LEN || |packet| < ihl then Drop
      else
        var totalLen := Word(packet, 2);
        if totalLen < ihl || totalLen > |packet| then Drop
        else if Word(packet, 6) % FRAGMENT_BITS != 0 then Fragment
        else if packet[9] != UDP_PROTOCOL || totalLen < ihl + UDP_HEADER_LEN then Drop
        else
          var udpLen := Word(packet, ihl + 4);
          if udpLen < UDP_HEADER_LEN || ihl + udpLen > totalLen then Drop
          else Udp(Parsed(packet[12..16], packet[16..20], Word(packet, ihl), Word(packet, ihl + 2),
                          totalLen, ihl + UDP_HEADER_LEN, udpLen - UDP_HEADER_LEN, EcnFromBits(packet[1] % 4)))
  }

  /** Length of the Ethernet header and the ethertype behind an optional 802.1Q tag. */
  function L2(frame: seq<byte>): Option<(nat, u16)>
  {
    if |frame| < ETHERNET_HEADER_LEN then None
    else if Word(frame, 12) != VLAN_ETHERTYPE then Some((ETHERNET_HEADER_LEN, Word(frame, 12)))
    else if |frame| < VLAN_HEADER_LEN then None
    else Some((VLAN_HEADER_LEN, Word(frame, 16)))
  }

  /** `parse_ethernet_ipv4_udp`. */
  function ParseEthernetIpv4Udp(frame: seq<byte>): (r: UdpParse)
    ensures r.Udp? ==> r.parsed.payloadOffset + r.parsed.payloadLen <= |frame|
  {
    match L2(frame)
    case None => Drop
    case Some((l2Len, ethertype)) =>
      if ethertype != ETHERTYPE_IPV4 then Drop
      else match ParseIpv4Udp(frame[l2Len..])
        case Udp(p) => Udp(p.(payloadOffset := l2Len + p.payloadOffset))
        case other => other
  }

  // ---------------------------------------------------------------- build then parse

  /** Parsing the datagram that a header was written for. */
  lemma ParseWritten(f: Fields, rest: seq<byte>)
    requires f.totalLen >= 28 && f.udpLen == f.totalLen - 20 && f.totalLen - 28 <= |rest|
    ensures ParseIpv4Udp(HeaderBytes(f) + rest)
         == Udp(Parsed(f.source, f.destination, f.sourcePort, f.destinationPort, f.totalLen, 28, f.totalLen - 28,
                       if f.ecn.Some? then f.ecn.value else NotEct))
  {
    var packet := HeaderBytes(f) + rest;
    WrittenWords(f, rest);
    EcnRoundTrip(f.ecn);
    hide HeaderBytes, Word, EcnBits;
    assert Ihl(0x45) == 20 && 0x45 / 16 == 4;
  }

  lemma EcnRoundTrip(ecn: Option<Ecn>)
    ensures EcnFromBits(EcnBits(ecn)) == if ecn.Some? then ecn.value else NotEct
  {
  }

  /** The fields of a written header, at the offsets the parsers read. */
  lemma WrittenWords(f: Fields, rest: seq<byte>)
    ensures var packet := HeaderBytes(f) + rest;
      && packet[0] == 0x45 && packet[1] == EcnBits(f.ecn) && packet[9] == UDP_PROTOCOL
      && Word(packet, 2) == f.totalLen && Word(packet, 6) == 0
      && packet[12..16] == f.source && packet[16..20] == f.destination
      && Word(packet, 20) == f.sourcePort && Word(packet, 22) == f.destinationPort && Word(packet, 24) == f.udpLen
  {
    var packet, c := HeaderBytes(f) + rest, HeaderChecksumOf(f);
    var h, udp := IpHeaderWith(f, c), UdpHeader(f);
    IpWords(f, c);
    BeRoundTrip(f.sourcePort);
    BeRoundTrip(f.destinationPort);
    BeRoundTrip(f.udpLen);
    assert packet == h + udp + rest;
    assert packet[..20] == h && packet[20..28] == udp;
    assert forall i :: 0 <= i < 20 ==> packet[i] == packet[..20][i];
    assert forall i :: 0 <= i < 8 ==> packet[20 + i] == udp[i];
    assert packet[12..16] == packet[..20][12..16] && packet[16..20] == packet[..20][16..20];
    assert Word(udp, 0) == f.sourcePort && Word(udp, 2) == f.destinationPort && Word(udp, 4) == f.udpLen;
  }

  /** A whole frame: Ethernet header, IPv4 and UDP headers, payload, trailing padding. */
  function Frame(e: XdpEgress, f: Fields, payload: seq<byte>, padding: seq<byte>): seq<byte>
  {
    EthernetHeader(e) + (HeaderBytes(f) + (payload + padding))
  }

  /** Building and then parsing is the identity on every field and on the payload, with
      or without a VLAN tag and with any padding; an absent ECN reads as not-ECT. */
  lemma BuildThenParse(e: XdpEgress, f: Fields, payload: seq<byte>, padding: seq<byte>)
    requires e.ethertype == ETHERTYPE_IPV4 && |payload| + 28 < 0x1_0000 && f == WithPayload(f, |payload|)
    ensures var frame := Frame(e, f, payload, padding); var r := ParseEthernetIpv4Udp(frame);
      && r.Udp?
      && r.parsed == Parsed(f.source, f.destination, f.sourcePort, f.destinationPort, |payload| + 28,
                            EthernetHeaderLen(e) + 28, |payload|, if f.ecn.Some? then f.ecn.value else NotEct)
      && frame[r.parsed.payloadOffset..r.parsed.payloadOffset + r.parsed.payloadLen] == payload
  {
    var frame := Frame(e, f, payload, padding);
    var l2, packet := EthernetHeader(e), HeaderBytes(f) + (payload + padding);
    L2OfFrame(e, packet);
    ParseWritten(f, payload + padding);
    hide EthernetHeader, HeaderBytes, L2, ParseIpv4Udp;
    assert frame[|l2|..] == packet;
    assert frame[|l2| + 28..|l2| + 28 + |payload|] == payload;
  }

  lemma L2OfFrame(e: XdpEgress, packet: seq<byte>)
    ensures L2(EthernetHeader(e) + packet) == Some((EthernetHeaderLen(e), e.ethertype))
      || (e.vlan.None? && e.ethertype == VLAN_ETHERTYPE)
  {
    var h := EthernetHeader(e);
    EthernetWords(e);
    hide EthernetHeader;
    var frame := h + packet;
    assert frame[12] == h[12] && frame[13] == h[13];
    if e.vlan.Some? { assert frame[16] == h[16] && frame[17] == h[17]; }
  }

  lemma EthernetWords(e: XdpEgress)
    ensures var h := EthernetHeader(e);
      if e.vlan.Some? then Word(h, 12) == VLAN_ETHERTYPE && Word(h, 16) == e.ethertype else Word(h, 12) == e.ethertype
  {
    BeRoundTrip(e.ethertype);
    BeRoundTrip(VLAN_ETHERTYPE);
  }

  // ---------------------------------------------------------------- eBPF filter

  /** `read_u16_be`: `None` when it would read past the packet. */
  function ReadWord(frame: seq<byte>, at: nat): Option<u16>
  {
    if at + 2 <= |frame| then Some(Word(frame, at)) else None
  }

  /** `packet_ethertype`: ethertype and header length behind 802.1Q or 802.1ad tags. */
  function PacketEthertype(frame: seq<byte>): Option<(u16, nat)>
  {
    match ReadWord(frame, 12)
    case None => None
    case Some(outer) =>
      if outer == VLAN_ETHERTYPE then
        match ReadWord(frame, 16) { case None => None case Some(inner) => Some((inner, 18)) }
      else if outer == ETHERTYPE_QINQ then
        match ReadWord(frame, 16) {
          case None => None
          case Some(tpid) =>
            if tpid != VLAN_ETHERTYPE then Some((tpid, 18))
            else match ReadWord(frame, 20) { case None => None case Some(inner) => Some((inner, 22)) }
        }
      else Some((outer, 14))
  }

  /** `packet_udp_destination_port`: the port the filter looks up, `None` both for an
      out-of-bounds read and for packets it passes on. */
  function EbpfPort(frame: seq<byte>): Option<u16>
  {
    match PacketEthertype(frame)
    case None => None
    case Some((ethertype, l2Len)) =>
      if ethertype != ETHERTYPE_IPV4 || l2Len + IPV4_MIN_HEADER_LEN > |frame| then None
      else
        var ihl := Ihl(frame[l2Len]);
        if frame[l2Len] / 16 != 4 || ihl < IPV4_MIN_HEADER_LEN then None
        else if Word(frame, l2Len + 6) % FRAGMENT_BITS != 0 || frame[l2Len + 9] != UDP_PROTOCOL then None
        else if l2Len + ihl + UDP_HEADER_LEN > |frame| then None
        else Some(Word(frame, l2Len + ihl + 2))
  }

  /** What the userspace parser checks and the filter does not: no 802.1ad tag, and
      length fields that fit each other and the packet. */
  predicate LengthsFit(packet: seq<byte>)
    requires |packet| >= IPV4_MIN_HEADER_LEN
  {
    var ihl, totalLen := Ihl(packet[0]), Word(packet, 2);
    && ihl + UDP_HEADER_LEN <= totalLen <= |packet|
    && var udpLen := Word(packet, ihl + 4); UDP_HEADER_LEN <= udpLen && ihl + udpLen <= totalLen
  }

  lemma Ipv4Agrees(frame: seq<byte>, l2Len: nat, p: u16)
    requires l2Len + IPV4_MIN_HEADER_LEN <= |frame|
    ensures var packet := frame[l2Len..]; var ihl := Ihl(packet[0]); var r := ParseIpv4Udp(packet);
      (r.Udp? && r.parsed.destinationPort == p) <==>
        (packet[0] / 16 == 4 && ihl >= IPV4_MIN_HEADER_LEN && Word(packet, 6) % FRAGMENT_BITS == 0
         && packet[9] == UDP_PROTOCOL
         && ihl + UDP_HEADER_LEN <= |packet| && Word(packet, ihl + 2) == p && LengthsFit(packet))
  {
  }

  lemma ShiftedWords(frame: seq<byte>, l2Len: nat, at: nat)
    requires l2Len + at + 2 <= |frame|
    ensures Word(frame[l2Len..], at) == Word(frame, l2Len + at)
  {
  }

  /** The filter's answer in terms of the packet behind the Ethernet header. */
  lemma EbpfOfPacket(frame: seq<byte>, l2Len: nat, p: u16)
    requires PacketEthertype(frame) == Some((ETHERTYPE_IPV4, l2Len)) && l2Len + IPV4_MIN_HEADER_LEN <= |frame|
    ensures var packet := frame[l2Len..]; var ihl := Ihl(packet[0]);
      EbpfPort(frame) == Some(p) <==>
        (packet[0] / 16 == 4 && ihl >= IPV4_MIN_HEADER_LEN && Word(packet, 6) % FRAGMENT_BITS == 0
         && packet[9] == UDP_PROTOCOL
         && ihl + UDP_HEADER_LEN <= |packet| && Word(packet, ihl + 2) == p)
  {
    hide PacketEthertype, Word;
    ShiftedWords(frame, l2Len, 6);
    var ihl := Ihl(frame[l2Len]);
    if l2Len + ihl + UDP_HEADER_LEN <= |frame| { ShiftedWords(frame, l2Len, ihl + 2); }
  }

  /** A frame that userspace classifies as UDP to port `p` is one for which the filter
      yields `p`, without an 802.1ad tag, and with consistent length fields; and every
      such frame is classified so. */
  lemma ParsersAgree(frame: seq<byte>, p: u16)
    ensures (ParseEthernetIpv4Udp(frame).Udp? && ParseEthernetIpv4Udp(frame).parsed.destinationPort == p)
       <==> (&& EbpfPort(frame) == Some(p) && L2(frame).Some? && L2(frame).value.1 == ETHERTYPE_IPV4
             && |frame| >= L2(frame).value.0 + IPV4_MIN_HEADER_LEN && LengthsFit(frame[L2(frame).value.0..]))
  {
    if L2(frame).Some? && L2(frame).value.1 == ETHERTYPE_IPV4 {
      var l2Len := L2(frame).value.0;
      assert PacketEthertype(frame) == Some((ETHERTYPE_IPV4, l2Len));
      hide L2, PacketEthertype, EbpfPort, ParseIpv4Udp, LengthsFit, Word;
      if l2Len + IPV4_MIN_HEADER_LEN <= |frame| {
        Ipv4Agrees(frame, l2Len, p);
        EbpfOfPacket(frame, l2Len, p);
      } else {
        TooShort(frame[l2Len..]);
      }
    }
  }

  lemma TooShort(packet: seq<byte>)
    requires |packet| < IPV4_MIN_HEADER_LEN
    ensures !ParseIpv4Udp(packet).Udp?
  {
  }
}
