/** What the descriptors of a prepared batch cover: the patched header and, right behind it, as many bytes as
    the callback reported, which the receiver's parser reads back; and which lengths are
    refused. */
module EndpointBatchWire {
  import opened Wrappers
  import opened Egress
  import opened Checksum
  import opened Headers
  import opened Parser
  import opened WireFormat
  import opened Umem
  import opened EndpointBatch

  /** A length is accepted if it is the fixed one, fits behind the header in the frame, and gives a datagram
      length of 16 bits. */
  lemma CheckIff(sh: Shape, len: nat)
    ensures sh.Check(len) == Some(InvalidPacket) <==> sh.expected.Some? && sh.expected.value != len
    ensures sh.Check(len) == None <==>
            && (sh.expected.Some? ==> sh.expected.value == len)
            && len <= sh.capacity && sh.patch.totalLenBase + len <= 0xFFFF
  {
  }

  /** A patch exists if its three words lie in the header, at offsets of 16 bits; it remembers the two
      words it replaces. */
  lemma NewPatchIff(header: seq<byte>, total: nat, checksum: nat, transport: nat, totalBase: u16, transportBase: u16)
    ensures var r := NewPatch(header, total, checksum, transport, totalBase, transportBase);
      && (r.Some? <==> total <= 0xFFFF && checksum <= 0xFFFF && transport <= 0xFFFF
                       && total + 2 <= |header| && checksum + 2 <= |header| && transport + 2 <= |header|)
      && (r.Some? ==> r.value.oldTotalLen == Number(header, total) && r.value.oldChecksum == Number(header, checksum))
  {
  }

  /** The descriptor of a ready frame lies in it and covers the patched header and the first bytes of
      what the callback wrote. */
  lemma DescriptorCovers(sh: Shape, before: seq<byte>, after: seq<byte>, frame: nat, i: nat, fill: Fill)
    requires sh.Fits() && frame + sh.frameSize <= |before| == |after| && FillKeepsLength(fill)
    requires sh.patch.transportLenBase <= sh.patch.totalLenBase && FrameReady(sh, before, after, frame, i, fill)
    ensures var (len, payload) := fill(i, before[frame + sh.payloadStart..frame + sh.payloadStart + sh.capacity]);
      var desc := DescOf(sh, frame, len);
      && len <= |payload| && sh.patch.totalLenBase + len <= 0xFFFF
      && frame <= desc.addr && desc.addr + desc.len <= frame + sh.frameSize
      && after[desc.addr..desc.addr + desc.len] == ApplyPatch(sh.header, sh.patch, len) + payload[..len]
  {
    hide ApplyPatch;
    var at := frame + sh.payloadStart;
    var (len, payload) := fill(i, before[at..at + sh.capacity]);
    assert after[at..at + len] == after[at..at + sh.capacity][..len];
    assert after[at - |sh.header|..at + len] == after[at - |sh.header|..at] + after[at..at + len];
  }

  /** The shape of an endpoint's frames: its cached header, patched where `patch_xdp_udp_endpoint_header_lengths`
      patches. */
  ghost predicate EndpointShape(sh: Shape, l2: seq<byte>, f: Fields, built: nat, checksum: u16)
  {
    && |l2| == 14 && l2[12] == 8 && l2[13] == 0 && built + 28 < 0x1_0000
    && sh.header == WithChecksum(l2, WithPayload(f, built), checksum)
    && NewPatch(sh.header, 16, 24, 38, 28, 8) == Some(sh.patch)
  }

  /** The bytes are a datagram with the endpoint's addresses, ports and ECN, behind its Ethernet
      header, and its payload is this one. */
  ghost predicate Carries(wire: seq<byte>, l2: seq<byte>, f: Fields, payload: seq<byte>)
  {
    && |wire| == 42 + |payload| && wire[..14] == l2 && wire[22] == f.ttl
    && var r := ParseEthernetIpv4Udp(wire);
    && r == Udp(Parsed(f.source, f.destination, f.sourcePort, f.destinationPort, |payload| + 28, 42, |payload|,
                       match f.ecn case Some(ecn) => ecn case None => NotEct))
    && wire[r.parsed.payloadOffset..r.parsed.payloadOffset + r.parsed.payloadLen] == payload
  }

  /** One frame: its descriptor, read back by the parser, carries what the callback wrote. */
  lemma FrameOnTheWire(sh: Shape, l2: seq<byte>, f: Fields, built: nat, checksum: u16, before: seq<byte>,
                       after: seq<byte>, frame: nat, i: nat, fill: Fill)
    requires EndpointShape(sh, l2, f, built, checksum) && FillKeepsLength(fill)
    requires sh.Fits() && frame + sh.frameSize <= |before| == |after|
    requires sh.patch.transportLenBase <= sh.patch.totalLenBase && FrameReady(sh, before, after, frame, i, fill)
    ensures var (len, payload) := fill(i, before[frame + sh.payloadStart..frame + sh.payloadStart + sh.capacity]);
      var desc := DescOf(sh, frame, len);
      && frame <= desc.addr && desc.addr + desc.len <= frame + sh.frameSize && len <= |payload|
      && Carries(after[desc.addr..desc.addr + desc.len], l2, f, payload[..len])
  {
    hide FrameReady, ApplyPatch, ParseEthernetIpv4Udp, WithChecksum, PatchLengths, NewPatch, Shape.Check;
    var at := frame + sh.payloadStart;
    var (len, payload) := fill(i, before[at..at + sh.capacity]);
    DescriptorCovers(sh, before, after, frame, i, fill);
    PatchBases(sh.header, sh.patch);
    var c := PatchedHeader(sh, l2, f, built, checksum, len);
    WireParses(l2, WithPayload(f, len), c, payload[..len]);
  }

  /** Every descriptor of a prepared batch lies in its frame and carries exactly what the callback
      reported for it. */
  lemma BatchOnTheWire(sh: Shape, l2: seq<byte>, f: Fields, built: nat, checksum: u16, before: seq<byte>,
                       after: seq<byte>, taken: seq<nat>, fill: Fill, descs: seq<XdpDesc>, i: nat)
    requires EndpointShape(sh, l2, f, built, checksum) && i < |taken| == |descs| && FillKeepsLength(fill)
    requires sh.Fits() && |before| == |after| && FramesApart(taken, sh.frameSize, |before|)
    requires sh.patch.transportLenBase <= sh.patch.totalLenBase
    requires BatchReady(sh, before, after, taken, |taken|, fill, descs)
    ensures var (len, payload) := fill(i, before[taken[i] + sh.payloadStart..taken[i] + sh.payloadStart + sh.capacity]);
      && taken[i] <= descs[i].addr && descs[i].addr + descs[i].len <= taken[i] + sh.frameSize && len <= |payload|
      && Carries(after[descs[i].addr..descs[i].addr + descs[i].len], l2, f, payload[..len])
  {
    hide FrameReady, Carries, EndpointShape, FramesApart, DescOf;
    InUmem(sh, taken, |before|, i);
    FrameOnTheWire(sh, l2, f, built, checksum, before, after, taken[i], i, fill);
  }

  lemma InUmem(sh: Shape, taken: seq<nat>, umemLen: nat, i: nat)
    requires i < |taken| && FramesApart(taken, sh.frameSize, umemLen)
    ensures taken[i] + sh.frameSize <= umemLen
  {
  }

  lemma PatchBases(header: seq<byte>, patch: HeaderPatch)
    requires NewPatch(header, 16, 24, 38, 28, 8) == Some(patch)
    ensures patch.totalLenBase == 28 && patch.transportLenBase == 8
  {
  }

  /** The patched copy is the header of the new length, with some checksum field. */
  lemma PatchedHeader(sh: Shape, l2: seq<byte>, f: Fields, built: nat, checksum: u16, len: nat) returns (c: u16)
    requires EndpointShape(sh, l2, f, built, checksum) && sh.patch.RequiredLen() <= |sh.header| && len + 28 <= 0xFFFF
    requires sh.patch.totalLenBase == 28 && sh.patch.transportLenBase == 8
    ensures ApplyPatch(sh.header, sh.patch, len) == WithChecksum(l2, WithPayload(f, len), c)
  {
    hide WithChecksum, PatchLengths, ApplyPatch, ReplaceWord;
    c := ReplaceWord(checksum, built + 28, len + 28);
    HeaderSize(l2, WithPayload(f, built), checksum);
    PatchCopiesAgree(sh.header, 14, len);
    PatchedBytes(l2, f, built, len, checksum);
  }

  lemma HeaderSize(l2: seq<byte>, f: Fields, checksum: u16)
    ensures |WithChecksum(l2, f, checksum)| == |l2| + 28
  {
  }
}
