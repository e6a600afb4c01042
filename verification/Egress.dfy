/** Egress handles and the Ethernet header they stand for. */
module Egress {
  import opened Wrappers

  type byte = x: nat | x < 0x100
  type u16 = x: nat | x < 0x1_0000
  type Mac = s: seq<byte> | |s| == 6 witness [0, 0, 0, 0, 0, 0]

  const ETHERTYPE_IPV4: u16 := 0x0800
  const VLAN_ETHERTYPE: u16 := 0x8100
  const ETHERNET_HEADER_LEN: nat := 14
  const VLAN_HEADER_LEN: nat := 18

  datatype XdpEgress = XdpEgress(ifindex: nat, queue: nat, dstMac: Mac, srcMac: Mac, ethertype: u16, vlan: Option<u16>,
                                 mtu: nat)

  /** `XdpEgress::ipv4`. */
  function Ipv4Egress(ifindex: nat, queue: nat, dstMac: Mac, srcMac: Mac, mtu: nat): XdpEgress
  {
    XdpEgress(ifindex, queue, dstMac, srcMac, ETHERTYPE_IPV4, None, mtu)
  }

  /** Big-endian bytes of a 16-bit word, and back. */
  function Be(x: u16): seq<byte> { [x / 0x100, x % 0x100] }

  function FromBe(hi: byte, lo: byte): u16 { hi * 0x100 + lo }

  function EthernetHeaderLen(e: XdpEgress): nat { if e.vlan.Some? then VLAN_HEADER_LEN else ETHERNET_HEADER_LEN }

  /** Destination, source, optional 802.1Q tag, ethertype. */
  function EthernetHeader(e: XdpEgress): (r: seq<byte>)
    ensures |r| == EthernetHeaderLen(e)
  {
    e.dstMac + e.srcMac + (if e.vlan.Some? then Be(VLAN_ETHERTYPE) + Be(e.vlan.value) else []) + Be(e.ethertype)
  }

  method CopyFromSlice(dst: array<byte>, at: nat, src: seq<byte>)
    requires at + |src| <= dst.Length
    modifies dst
    ensures forall i :: 0 <= i < |src| ==> dst[at + i] == src[i]
    ensures forall i :: 0 <= i < dst.Length && !(at <= i < at + |src|) ==> dst[i] == old(dst[i])
  {
    forall i | 0 <= i < |src| { dst[at + i] := src[i]; }
  }

  /** `write_ethernet_header`: the five slice copies fill the buffer with the header. */
  method WriteEthernetHeader(header: array<byte>, e: XdpEgress)
    requires header.Length == EthernetHeaderLen(e)
    modifies header
    ensures header[..] == EthernetHeader(e)
  {
    CopyFromSlice(header, 0, e.dstMac);
    CopyFromSlice(header, 6, e.srcMac);
    if e.vlan.Some? {
      CopyFromSlice(header, 12, Be(VLAN_ETHERTYPE));
      CopyFromSlice(header, 14, Be(e.vlan.value));
      CopyFromSlice(header, 16, Be(e.ethertype));
    } else {
      CopyFromSlice(header, 12, Be(e.ethertype));
    }
  }

  /** An egress with its header bytes already made. */
  datatype ResolvedEgress = ResolvedEgress(egress: XdpEgress, l2Header: seq<byte>)
  {
    function WithQueue(queue: nat): ResolvedEgress { this.(egress := egress.(queue := queue)) }
  }

  function FromEgress(e: XdpEgress): ResolvedEgress { ResolvedEgress(e, EthernetHeader(e)) }

  /** The queue is not part of the header, so stamping it commutes with building. */
  lemma WithQueueOfFrom(e: XdpEgress, queue: nat)
    ensures FromEgress(e).WithQueue(queue) == FromEgress(e.(queue := queue))
  {
  }
}
