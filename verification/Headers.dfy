/** IPv4 and UDP headers: writing them (section 3.1 of RFC 791, and RFC 768) and patching
    their lengths in place, once or in a chain. */
module Headers {
  import opened Wrappers
  import opened Egress
  import opened Checksum

  const IPV4_MIN_HEADER_LEN: nat := 20
  const UDP_HEADER_LEN: nat := 8
  const UDP_PROTOCOL: byte := 17
  const FRAGMENT_BITS: nat := 0x4000
  const ETHERTYPE_QINQ: u16 := 0x88a8

  type Octets = s: seq<byte> | |s| == 4 witness [0, 0, 0, 0]

  /** The codepoints of section 5 of RFC 3168. */
  datatype Ecn = NotEct | Ect0 | Ect1 | Ce

  function EcnBits(ecn: Option<Ecn>): (r: byte)
    ensures r < 4
  {
    match ecn
    case Some(Ect0) => 2
    case Some(Ect1) => 1
    case Some(Ce) => 3
    case _ => 0
  }

  function EcnFromBits(bits: byte): Ecn
  {
    match bits % 4
    case 0 => NotEct
    case 1 => Ect1
    case 2 => Ect0
    case _ => Ce
  }

  datatype Fields = Fields(sourcePort: u16, destinationPort: u16, source: Octets, destination: Octets,
                           totalLen: u16, udpLen: u16, ttl: byte, ecn: Option<Ecn>)

  // ---------------------------------------------------------------- writing

  /** The IPv4 header with a given checksum field. */
  function IpHeaderWith(f: Fields, checksum: u16): (r: seq<byte>)
    ensures |r| == IPV4_MIN_HEADER_LEN
  {
    [0x45, EcnBits(f.ecn)] + Be(f.totalLen) + [0, 0, 0, 0, f.ttl, UDP_PROTOCOL] + Be(checksum) + f.source
      + f.destination
  }

  /** Sum of all header words except the checksum. */
  function HeaderSum(f: Fields): nat { WordSum(IpHeaderWith(f, 0), 10) }

  function HeaderChecksumOf(f: Fields): u16 { Not(Canon(HeaderSum(f))) }

  function UdpHeader(f: Fields): (r: seq<byte>)
    ensures |r| == UDP_HEADER_LEN
  {
    Be(f.sourcePort) + Be(f.destinationPort) + Be(f.udpLen) + [0, 0]
  }

  function HeaderBytes(f: Fields): (r: seq<byte>)
    ensures |r| == IPV4_MIN_HEADER_LEN + UDP_HEADER_LEN
  {
    IpHeaderWith(f, HeaderChecksumOf(f)) + UdpHeader(f)
  }

  lemma BeRoundTrip(x: u16)
    ensures FromBe(Be(x)[0], Be(x)[1]) == x
  {
  }

  lemma IpWords(f: Fields, c: u16)
    ensures var h := IpHeaderWith(f, c);
      && Word(h, 0) == 0x4500 + EcnBits(f.ecn) && Word(h, 2) == f.totalLen && Word(h, 4) == 0 && Word(h, 6) == 0
      && Word(h, 10) == c && h[8] == f.ttl && h[9] == UDP_PROTOCOL && h[12..16] == f.source
         && h[16..20] == f.destination
  {
    BeRoundTrip(f.totalLen);
    BeRoundTrip(c);
  }

  /** Every header has a non-zero word sum. */
  lemma {:induction false} SumAtLeastFirst(bytes: seq<byte>, n: nat)
    requires n > 0 && 2 * n <= |bytes|
    ensures WordSum(bytes, n) >= Word(bytes, 0)
  {
    if n > 1 { SumAtLeastFirst(bytes, n - 1); } else { assert WordSum(bytes, 0) == 0; }
  }

  lemma ChecksumFieldOnly(f: Fields, c: u16, d: u16, k: nat)
    requires k < 10 && k != 5
    ensures Word(IpHeaderWith(f, c), 2 * k) == Word(IpHeaderWith(f, d), 2 * k)
  {
    var a, b := IpHeaderWith(f, c), IpHeaderWith(f, d);
    assert forall i :: 0 <= i < 20 && i != 10 && i != 11 ==> a[i] == b[i];
  }

  lemma SumWithChecksum(f: Fields, c: u16)
    ensures WordSum(IpHeaderWith(f, c), 10) == HeaderSum(f) + c
  {
    hide IpHeaderWith, WordSum, Word;
    forall k | 0 <= k < 10 && k != 5
      ensures Word(IpHeaderWith(f, 0), 2 * k) == Word(IpHeaderWith(f, c), 2 * k)
    {
      ChecksumFieldOnly(f, 0, c, k);
    }
    IpWords(f, 0);
    IpWords(f, c);
    ReplaceWordSum(IpHeaderWith(f, 0), IpHeaderWith(f, c), 10, 5);
  }

  lemma IpPart(f: Fields)
    ensures HeaderBytes(f)[..20] == IpHeaderWith(f, HeaderChecksumOf(f)) && HeaderBytes(f)[20..] == UdpHeader(f)
  {
  }

  /** A written header verifies: the checksum over it, checksum field included, is 0. */
  lemma WrittenHeaderVerifies(f: Fields)
    ensures Not(Canon(WordSum(HeaderBytes(f)[..20], 10))) == 0
  {
    hide IpHeaderWith, UdpHeader, WordSum, Word, Canon;
    var c := HeaderChecksumOf(f);
    IpPart(f);
    SumWithChecksum(f, c);
    IpWords(f, 0);
    SumAtLeastFirst(IpHeaderWith(f, 0), 10);
    ComplementSums(HeaderSum(f));
  }

  lemma ComplementSums(s: nat)
    requires s > 0
    ensures Canon(s + Not(Canon(s))) == ONES
  {
    var k := (s - 1) / ONES;
    assert s == Canon(s) + k * ONES;
    CanonUnique(s + Not(Canon(s)), ONES, k);
  }

  /** `write_ipv4_udp_headers`: the identification bytes are not written and the old
      checksum field is summed too, so the buffer becomes the header of the fields exactly
      when those bytes hold zero, or all ones in the checksum field.  Callers pass zeros. */
  method WriteIpv4UdpHeaders(headers: array<byte>, f: Fields)
    requires headers.Length == IPV4_MIN_HEADER_LEN + UDP_HEADER_LEN
    modifies headers
    ensures var id, field := Word(old(headers[..]), 4), Word(old(headers[..]), 10);
      && headers[..] == SetWord(IpHeaderWith(f, Not(Canon(HeaderSum(f) + id + field))), 4, id) + UdpHeader(f)
      && (headers[..] == HeaderBytes(f) <==> id == 0 && (field == 0 || field == ONES))
  {
    hide IpHeaderWith, UdpHeader, SetWord, Canon, WordSum;
    ghost var id, field := Word(headers[..], 4), Word(headers[..], 10);
    WriteIpFields(headers, f);
    var checksum := HeaderChecksum(headers[..20]);
    SumWithId(f, field, id);
    WriteUdpFields(headers, f, checksum, id, field);
    FreshOrNot(f, id, field);
  }

  lemma SumWithId(f: Fields, c: u16, id: u16)
    ensures WordSum(SetWord(IpHeaderWith(f, c), 4, id), 10) == HeaderSum(f) + id + c
  {
    hide IpHeaderWith, WordSum;
    var a := IpHeaderWith(f, c);
    var b := SetWord(a, 4, id);
    IpWords(f, c);
    BeRoundTrip(id);
    forall k | 0 <= k < 10 && k != 2
      ensures Word(a, 2 * k) == Word(b, 2 * k)
    {
    }
    SumWithChecksum(f, c);
    ReplaceWordSum(a, b, 10, 2);
  }

  lemma FreshOrNot(f: Fields, id: u16, field: u16)
    ensures SetWord(IpHeaderWith(f, Not(Canon(HeaderSum(f) + id + field))), 4, id) + UdpHeader(f) == HeaderBytes(f)
       <==> id == 0 && (field == 0 || field == ONES)
  {
    hide UdpHeader, Canon, WordSum, SetWord, IpHeaderWith, Word;
    var c, d := Not(Canon(HeaderSum(f) + id + field)), HeaderChecksumOf(f);
    var a, b := SetWord(IpHeaderWith(f, c), 4, id), IpHeaderWith(f, d);
    IpWords(f, c);
    IpWords(f, d);
    IpWords(f, 0);
    IdWord(IpHeaderWith(f, c), id);
    SumAtLeastFirst(IpHeaderWith(f, 0), 10);
    SameCanon(HeaderSum(f), field);
    if id != 0 || c != d {
      assert Word(a, 4) != Word(b, 4) || Word(a, 10) != Word(b, 10);
      DifferentMiddle([], a, b, UdpHeader(f));
      assert [] + a + UdpHeader(f) == a + UdpHeader(f) && [] + b + UdpHeader(f) == b + UdpHeader(f);
    }
  }

  lemma IdWord(h: seq<byte>, id: u16)
    requires |h| == 20
    ensures Word(SetWord(h, 4, id), 4) == id && Word(SetWord(h, 4, id), 10) == Word(h, 10)
    ensures Word(h, 4) == id ==> SetWord(h, 4, id) == h
  {
    BeRoundTrip(id);
  }

  lemma SameCanon(s: nat, x: u16)
    requires s > 0
    ensures Canon(s + x) == Canon(s) <==> x == 0 || x == ONES
  {
    var c, k := Canon(s), (s - 1) / ONES;
    assert s == c + k * ONES;
    if c + x <= ONES {
      CanonUnique(s + x, c + x, k);
    } else {
      CanonUnique(s + x, c + x - ONES, k + 1);
    }
  }

  method WriteIpFields(headers: array<byte>, f: Fields)
    requires headers.Length == IPV4_MIN_HEADER_LEN + UDP_HEADER_LEN
    modifies headers
    ensures headers[..20] == SetWord(IpHeaderWith(f, Word(old(headers[..]), 10)), 4, Word(old(headers[..]), 4))
  {
    hide IpHeaderWith, SetWord, FromBe;
    ghost var id, field := Word(headers[..], 4), Word(headers[..], 10);
    BeOfWord(headers[..], 4);
    BeOfWord(headers[..], 10);
    headers[0] := 0x45;
    headers[1] := EcnBits(f.ecn);
    CopyFromSlice(headers, 2, Be(f.totalLen));
    CopyFromSlice(headers, 6, Be(0));
    headers[8] := f.ttl;
    headers[9] := UDP_PROTOCOL;
    CopyFromSlice(headers, 12, f.source);
    CopyFromSlice(headers, 16, f.destination);
    IpFieldsInPlace(headers[..], f, field, id);
  }

  /** The IPv4 header, field by field. */
  lemma IpFieldsInPlace(h: seq<byte>, f: Fields, field: u16, id: u16)
    requires |h| >= 20 && h[0] == 0x45 && h[1] == EcnBits(f.ecn) && h[8] == f.ttl && h[9] == UDP_PROTOCOL
    requires (forall i :: 0 <= i < 2 ==> h[2 + i] == Be(f.totalLen)[i])
    requires (forall i :: 0 <= i < 2 ==> h[6 + i] == Be(0)[i])
    requires Be(id) == [h[4], h[5]] && Be(field) == [h[10], h[11]]
    requires forall i :: 0 <= i < 4 ==> h[12 + i] == f.source[i]
    requires forall i :: 0 <= i < 4 ==> h[16 + i] == f.destination[i]
    ensures h[..20] == SetWord(IpHeaderWith(f, field), 4, id)
  {
    hide IpHeaderWith, SetWord;
    IpBytes(f, field);
    IdBytes(IpHeaderWith(f, field), id);
    assert h[2 + 0] == Be(f.totalLen)[0] && h[2 + 1] == Be(f.totalLen)[1];
    assert h[6 + 0] == Be(0)[0] && h[6 + 1] == Be(0)[1];
    forall i | 0 <= i < 20
      ensures h[i] == SetWord(IpHeaderWith(f, field), 4, id)[i]
    {
      if 12 <= i < 16 { assert h[12 + (i - 12)] == f.source[i - 12]; }
      if 16 <= i { assert h[16 + (i - 16)] == f.destination[i - 16]; }
    }
  }

  lemma BeOfWord(bytes: seq<byte>, at: nat)
    requires at + 1 < |bytes|
    ensures Be(Word(bytes, at)) == [bytes[at], bytes[at + 1]]
  {
  }

  lemma IdBytes(h: seq<byte>, id: u16)
    requires |h| == 20
    ensures var r := SetWord(h, 4, id);
      r[4] == Be(id)[0] && r[5] == Be(id)[1] && forall i :: 0 <= i < 20 && i != 4 && i != 5 ==> r[i] == h[i]
  {
  }

  lemma IpBytes(f: Fields, c: u16)
    ensures var h := IpHeaderWith(f, c);
      && h[0] == 0x45 && h[1] == EcnBits(f.ecn) && h[2] == Be(f.totalLen)[0] && h[3] == Be(f.totalLen)[1] && h[4] == 0
         && h[5] == 0 && h[6] == 0 && h[7] == 0
      && h[8] == f.ttl && h[9] == UDP_PROTOCOL && h[10] == Be(c)[0] && h[11] == Be(c)[1]
      && (forall i :: 0 <= i < 4 ==> h[12 + i] == f.source[i] && h[16 + i] == f.destination[i])
  {
  }

  method WriteUdpFields(headers: array<byte>, f: Fields, checksum: u16, ghost id: u16, ghost field: u16)
    requires headers.Length == IPV4_MIN_HEADER_LEN + UDP_HEADER_LEN
    requires headers[..20] == SetWord(IpHeaderWith(f, field), 4, id)
    modifies headers
    ensures headers[..] == SetWord(IpHeaderWith(f, checksum), 4, id) + UdpHeader(f)
  {
    hide IpHeaderWith, SetWord, UdpHeader;
    ghost var before := headers[..];
    CopyFromSlice(headers, 10, Be(checksum));
    CopyFromSlice(headers, 20, Be(f.sourcePort));
    CopyFromSlice(headers, 22, Be(f.destinationPort));
    CopyFromSlice(headers, 24, Be(f.udpLen));
    CopyFromSlice(headers, 26, Be(0));
    assert forall i :: 0 <= i < 20 && i != 10 && i != 11 ==> headers[..][i] == before[..20][i];
    assert headers[10 + 0] == Be(checksum)[0] && headers[10 + 1] == Be(checksum)[1];
    ChecksumInPlace(headers[..], f, checksum, id, field);
    UdpInPlace(headers[..], f);
    assert headers[..] == headers[..][..20] + headers[..][20..];
  }

  lemma ChecksumInPlace(h: seq<byte>, f: Fields, checksum: u16, id: u16, field: u16)
    requires |h| == 28 && h[10] == Be(checksum)[0] && h[11] == Be(checksum)[1]
    requires forall i :: 0 <= i < 20 && i != 10 && i != 11 ==> h[i] == SetWord(IpHeaderWith(f, field), 4, id)[i]
    ensures h[..20] == SetWord(IpHeaderWith(f, checksum), 4, id)
  {
    var a, b := IpHeaderWith(f, field), IpHeaderWith(f, checksum);
    IdBytes(a, id);
    IdBytes(b, id);
    IpBytes(f, checksum);
    assert forall i :: 0 <= i < 20 && i != 10 && i != 11 ==> a[i] == b[i];
    hide SetWord, IpHeaderWith;
  }

  lemma UdpInPlace(h: seq<byte>, f: Fields)
    requires |h| == 28
    requires (forall i :: 0 <= i < 2 ==> h[20 + i] == Be(f.sourcePort)[i])
    requires (forall i :: 0 <= i < 2 ==> h[22 + i] == Be(f.destinationPort)[i])
    requires (forall i :: 0 <= i < 2 ==> h[24 + i] == Be(f.udpLen)[i])
    requires (forall i :: 0 <= i < 2 ==> h[26 + i] == Be(0)[i])
    ensures h[20..] == UdpHeader(f)
  {
    assert h[20 + 0] == Be(f.sourcePort)[0] && h[20 + 1] == Be(f.sourcePort)[1];
    assert h[22 + 0] == Be(f.destinationPort)[0] && h[22 + 1] == Be(f.destinationPort)[1];
    assert h[24 + 0] == Be(f.udpLen)[0] && h[24 + 1] == Be(f.udpLen)[1];
    assert h[26 + 0] == Be(0)[0] && h[26 + 1] == Be(0)[1];
  }

  // ---------------------------------------------------------------- patching lengths

  function SetWord(bytes: seq<byte>, at: nat, v: u16): (r: seq<byte>)
    requires at + 2 <= |bytes|
    ensures |r| == |bytes|
  {
    bytes[..at] + Be(v) + bytes[at + 2..]
  }

  /** The header of a datagram with this payload length. */
  function WithPayload(f: Fields, payloadLen: nat): Fields
    requires payloadLen + 28 < 0x1_0000
  {
    f.(totalLen := payloadLen + 28, udpLen := payloadLen + 8)
  }

  function Template(l2: seq<byte>, f: Fields, payloadLen: nat): seq<byte>
    requires payloadLen + 28 < 0x1_0000
  {
    l2 + HeaderBytes(WithPayload(f, payloadLen))
  }

  /** `patch_xdp_udp_endpoint_header_lengths`: the two length words and the checksum,
      updated incrementally from the values in the header. */
  function PatchLengths(header: seq<byte>, l2Len: nat, payloadLen: nat): Option<seq<byte>>
    requires l2Len + 28 <= |header|
  {
    if payloadLen + 28 > 0xFFFF then None
    else
      var checksum := ReplaceWord(Word(header, l2Len + 10), Word(header, l2Len + 2), payloadLen + 28);
      Some(SetWord(SetWord(SetWord(header, l2Len + 2, payloadLen + 28), l2Len + 10, checksum), l2Len + 24,
                   payloadLen + 8))
  }

  /** The three writes in place. */
  method PatchHeaderLengths(header: array<byte>, l2Len: nat, payloadLen: nat) returns (ok: bool)
    requires l2Len + 28 <= header.Length
    modifies header
    ensures ok == PatchLengths(old(header[..]), l2Len, payloadLen).Some?
    ensures header[..] == if ok then PatchLengths(old(header[..]), l2Len, payloadLen).value else old(header[..])
  {
    hide SetWord, ReplaceWord;
    if payloadLen + 28 > 0xFFFF { return false; }
    var oldTotalLen := FromBe(header[l2Len + 2], header[l2Len + 3]);
    var oldChecksum := FromBe(header[l2Len + 10], header[l2Len + 11]);
    var checksum := ReplaceWord(oldChecksum, oldTotalLen, payloadLen + 28);
    WriteWord(header, l2Len + 2, payloadLen + 28);
    WriteWord(header, l2Len + 10, checksum);
    WriteWord(header, l2Len + 24, payloadLen + 8);
    return true;
  }

  /** `write_be_u16`. */
  method WriteWord(bytes: array<byte>, at: nat, v: u16)
    requires at + 2 <= bytes.Length
    modifies bytes
    ensures bytes[..] == SetWord(old(bytes[..]), at, v)
  {
    bytes[at] := v / 0x100;
    bytes[at + 1] := v % 0x100;
  }

  /** Does patching this template from one length to another meet the carry case? */
  predicate HitsCarry(f: Fields, before: nat, after: nat)
    requires before + 28 < 0x1_0000 && after + 28 < 0x1_0000
  {
    PatchSum(HeaderChecksumOf(WithPayload(f, before)), before + 28, after + 28) == CARRY
  }

  /** A header of these fields with any checksum field. */
  function WithChecksum(l2: seq<byte>, f: Fields, checksum: u16): seq<byte>
  {
    l2 + IpHeaderWith(f, checksum) + UdpHeader(f)
  }

  lemma TemplateChecksum(l2: seq<byte>, f: Fields, payloadLen: nat)
    requires payloadLen + 28 < 0x1_0000
    ensures var g := WithPayload(f, payloadLen); Template(l2, f, payloadLen) == WithChecksum(l2, g, HeaderChecksumOf(g))
  {
  }

  /** A patch sets the lengths and updates whatever checksum was there. */
  lemma PatchedBytes(l2: seq<byte>, f: Fields, before: nat, after: nat, c: u16)
    requires before + 28 < 0x1_0000 && after + 28 < 0x1_0000
    ensures PatchLengths(WithChecksum(l2, WithPayload(f, before), c), |l2|, after)
         == Some(WithChecksum(l2, WithPayload(f, after), ReplaceWord(c, before + 28, after + 28)))
  {
    hide ReplaceWord;
    var b, a := WithPayload(f, before), WithPayload(f, after);
    var header := WithChecksum(l2, b, c);
    IpWords(b, c);
    assert header[|l2|..][..20] == IpHeaderWith(b, c);
    assert Word(header, |l2| + 2) == b.totalLen && Word(header, |l2| + 10) == c;
    SetInHeader(l2, b, c, after, ReplaceWord(c, before + 28, after + 28));
    assert a == b.(totalLen := after + 28, udpLen := after + 8);
  }

  lemma SetInside(p: seq<byte>, x: seq<byte>, q: seq<byte>, at: nat, v: u16)
    requires at + 2 <= |x|
    ensures SetWord(p + x + q, |p| + at, v) == p + SetWord(x, at, v) + q
  {
    var whole := p + x + q;
    assert whole[..|p| + at] == p + x[..at];
    assert whole[|p| + at + 2..] == x[at + 2..] + q;
  }

  lemma SetIpWords(b: Fields, c: u16, v: u16)
    ensures SetWord(IpHeaderWith(b, c), 2, v) == IpHeaderWith(b.(totalLen := v), c)
    ensures SetWord(IpHeaderWith(b, c), 10, v) == IpHeaderWith(b, v)
    ensures SetWord(UdpHeader(b), 4, v) == UdpHeader(b.(udpLen := v))
  {
  }

  lemma SetInHeader(l2: seq<byte>, b: Fields, c: u16, after: nat, checksum: u16)
    requires after + 28 < 0x1_0000
    ensures SetWord(SetWord(SetWord(WithChecksum(l2, b, c), |l2| + 2, after + 28), |l2| + 10, checksum), |l2| + 24,
                    after + 8)
         == WithChecksum(l2, b.(totalLen := after + 28, udpLen := after + 8), checksum)
  {
    var udp := UdpHeader(b);
    var a := b.(totalLen := after + 28);
    SetIpWords(b, c, after + 28);
    SetIpWords(a, c, checksum);
    SetIpWords(a, c, after + 8);
    SameFields(b, after + 28, after + 8, checksum);
    hide SetWord, IpHeaderWith, UdpHeader;
    SetInside(l2, IpHeaderWith(b, c), udp, 2, after + 28);
    SetInside(l2, IpHeaderWith(a, c), udp, 10, checksum);
    var front := l2 + IpHeaderWith(a, checksum);
    assert front + udp == front + udp + [];
    SetInside(front, udp, [], 4, after + 8);
    assert front + SetWord(udp, 4, after + 8) + [] == front + SetWord(udp, 4, after + 8);
  }

  /** Each header ignores the other's length. */
  lemma SameFields(b: Fields, totalLen: u16, udpLen: u16, c: u16)
    ensures IpHeaderWith(b.(totalLen := totalLen, udpLen := udpLen), c) == IpHeaderWith(b.(totalLen := totalLen), c)
    ensures UdpHeader(b.(totalLen := totalLen)) == UdpHeader(b)
    ensures UdpHeader(b.(totalLen := totalLen, udpLen := udpLen)) == SetWord(UdpHeader(b), 4, udpLen)
  {
    SetIpWords(b, c, udpLen);
  }

  lemma LengthWordOnly(f: Fields, before: nat, after: nat, k: nat)
    requires before + 28 < 0x1_0000 && after + 28 < 0x1_0000 && k < 10 && k != 1
    ensures Word(IpHeaderWith(WithPayload(f, before), 0), 2 * k) == Word(IpHeaderWith(WithPayload(f, after), 0), 2 * k)
  {
    var a, b := IpHeaderWith(WithPayload(f, before), 0), IpHeaderWith(WithPayload(f, after), 0);
    assert forall i :: 0 <= i < 20 && i != 2 && i != 3 ==> a[i] == b[i];
  }

  lemma SumOfLength(f: Fields, before: nat, after: nat)
    requires before + 28 < 0x1_0000 && after + 28 < 0x1_0000
    ensures HeaderSum(WithPayload(f, after)) == HeaderSum(WithPayload(f, before)) - before + after
    ensures HeaderSum(WithPayload(f, before)) >= before + 28 && HeaderSum(WithPayload(f, after)) > 0
  {
    hide WordSum, Word, IpHeaderWith;
    var b, a := WithPayload(f, before), WithPayload(f, after);
    IpWords(b, 0);
    IpWords(a, 0);
    forall k | 0 <= k < 10 && k != 1
      ensures Word(IpHeaderWith(b, 0), 2 * k) == Word(IpHeaderWith(a, 0), 2 * k)
    {
      LengthWordOnly(f, before, after, k);
    }
    ReplaceWordSum(IpHeaderWith(b, 0), IpHeaderWith(a, 0), 10, 1);
    SumAtLeastFirst(IpHeaderWith(a, 0), 10);
    SumOtherWords(b);
  }

  /** Only the right checksum makes the header the freshly written one. */
  lemma OneChecksum(l2: seq<byte>, f: Fields, c: u16, d: u16)
    ensures WithChecksum(l2, f, c) == WithChecksum(l2, f, d) <==> c == d
  {
    if c != d {
      IpWords(f, c);
      IpWords(f, d);
      DifferentMiddle(l2, IpHeaderWith(f, c), IpHeaderWith(f, d), UdpHeader(f));
    }
  }

  /** A patch that avoids the carry case leaves the right checksum. */
  lemma PatchedChecksum(f: Fields, before: nat, after: nat)
    requires before + 28 < 0x1_0000 && after + 28 < 0x1_0000
    ensures ReplaceWord(HeaderChecksumOf(WithPayload(f, before)), before + 28, after + 28)
            == HeaderChecksumOf(WithPayload(f, after))
       <==> !HitsCarry(f, before, after)
  {
    hide WordSum, Canon, ReplaceWord;
    SumOfLength(f, before, after);
    ReplaceWordExact(HeaderSum(WithPayload(f, before)), before + 28, after + 28);
  }

  /** Patching a template gives exactly the freshly written header if and only if the
      carry case is not met. */
  lemma PatchIsFresh(l2: seq<byte>, f: Fields, before: nat, after: nat)
    requires before + 28 < 0x1_0000 && after + 28 < 0x1_0000
    ensures PatchLengths(Template(l2, f, before), |l2|, after) == Some(Template(l2, f, after))
      <==> !HitsCarry(f, before, after)
  {
    hide Template, WithChecksum, PatchLengths, ReplaceWord, HeaderChecksumOf, HitsCarry;
    var b, a := WithPayload(f, before), WithPayload(f, after);
    TemplateChecksum(l2, f, before);
    TemplateChecksum(l2, f, after);
    PatchedBytes(l2, f, before, after, HeaderChecksumOf(b));
    PatchedChecksum(f, before, after);
    OneChecksum(l2, a, ReplaceWord(HeaderChecksumOf(b), before + 28, after + 28), HeaderChecksumOf(a));
  }

  /** A header that the code writes and then patches wrongly: from 119.7.0.0 with TTL 64,
      no payload to 972 bytes.  The patched checksum is 0xFFFF and must be 0xFFFE. */
  lemma CarryExample(l2: seq<byte>, sourcePort: u16, destinationPort: u16)
    ensures var f := Fields(sourcePort, destinationPort, [119, 7, 0, 0], [0, 0, 0, 0], 0, 0, 64, None);
      && HitsCarry(f, 0, 972)
      && PatchLengths(Template(l2, f, 0), |l2|, 972) == Some(WithChecksum(l2, WithPayload(f, 972), 0xFFFF))
      && Template(l2, f, 972) == WithChecksum(l2, WithPayload(f, 972), 0xFFFE)
      && PatchLengths(Template(l2, f, 0), |l2|, 972) != Some(Template(l2, f, 972))
  {
    hide Template, WithChecksum, PatchLengths, Canon, WordSum;
    var f := Fields(sourcePort, destinationPort, [119, 7, 0, 0], [0, 0, 0, 0], 0, 0, 64, None);
    ExampleSum(f);
    SumOfLength(f, 0, 972);
    CanonUnique(0xFC18 + 28, 0xFC18 + 28, 0);
    CanonUnique(0x1_0000, 1, 1);
    TemplateChecksum(l2, f, 0);
    TemplateChecksum(l2, f, 972);
    PatchedBytes(l2, f, 0, 972, HeaderChecksumOf(WithPayload(f, 0)));
    PatchIsFresh(l2, f, 0, 972);
  }

  lemma ExampleSum(f: Fields)
    requires f.source == [119, 7, 0, 0] && f.destination == [0, 0, 0, 0] && f.ttl == 64 && f.ecn == None
    ensures HeaderSum(WithPayload(f, 0)) == 0xFC18 + 28
  {
    hide IpHeaderWith, WordSum;
    var h := IpHeaderWith(WithPayload(f, 0), 0);
    IpWords(WithPayload(f, 0), 0);
    assert h[12] == h[12..16][0] && h[13] == h[12..16][1] && h[14] == h[12..16][2] && h[15] == h[12..16][3];
    assert h[16] == h[16..20][0] && h[17] == h[16..20][1] && h[18] == h[16..20][2] && h[19] == h[16..20][3];
    TenWords(h);
  }

  lemma TenWords(h: seq<byte>)
    requires |h| == 20
    ensures WordSum(h, 10) == Word(h, 0) + Word(h, 2) + Word(h, 4) + Word(h, 6) + Word(h, 8)
                              + Word(h, 10) + Word(h, 12) + Word(h, 14) + Word(h, 16) + Word(h, 18)
  {
    hide Word;
    assert WordSum(h, 0) == 0 && WordSum(h, 1) == Word(h, 0);
    assert WordSum(h, 2) == WordSum(h, 1) + Word(h, 2);
    assert WordSum(h, 4) == WordSum(h, 2) + Word(h, 4) + Word(h, 6);
    assert WordSum(h, 6) == WordSum(h, 4) + Word(h, 8) + Word(h, 10);
    assert WordSum(h, 8) == WordSum(h, 6) + Word(h, 12) + Word(h, 14);
  }

  lemma DifferentMiddle(l2: seq<byte>, x: seq<byte>, y: seq<byte>, tail: seq<byte>)
    requires |x| == |y| && x != y
    ensures l2 + x + tail != l2 + y + tail
  {
    var i :| 0 <= i < |x| && x[i] != y[i];
    assert (l2 + x + tail)[|l2| + i] == x[i];
    assert (l2 + y + tail)[|l2| + i] == y[i];
  }

  lemma SumOtherWords(f: Fields)
    ensures HeaderSum(f) >= f.totalLen
  {
    var h := IpHeaderWith(f, 0);
    IpWords(f, 0);
    assert WordSum(h, 2) == WordSum(h, 1) + Word(h, 2);
    SumMono(h, 2, 10);
  }

  lemma {:induction false} SumMono(bytes: seq<byte>, m: nat, n: nat)
    requires m <= n && 2 * n <= |bytes|
    ensures WordSum(bytes, m) <= WordSum(bytes, n)
  {
    if m < n { SumMono(bytes, m, n - 1); }
  }

  // ---------------------------------------------------------------- chains of patches

  function PatchChain(header: seq<byte>, l2Len: nat, lens: seq<nat>): Option<seq<byte>>
    requires l2Len + 28 <= |header|
    decreases |lens|
  {
    if lens == [] then Some(header)
    else match PatchLengths(header, l2Len, lens[0])
      case None => None
      case Some(next) => PatchChain(next, l2Len, lens[1..])
  }

  ghost predicate LengthsOk(lens: seq<nat>) { forall i :: 0 <= i < |lens| ==> lens[i] + 28 < 0x1_0000 }

  function LastLen(before: nat, lens: seq<nat>): nat { if lens == [] then before else lens[|lens| - 1] }

  /** Checksum field at the end of a chain of patches. */
  function ChainChecksum(c: u16, before: nat, lens: seq<nat>): u16
    requires before + 28 < 0x1_0000 && LengthsOk(lens)
    decreases |lens|
  {
    if lens == [] then c else ChainChecksum(ReplaceWord(c, before + 28, lens[0] + 28), lens[0], lens[1..])
  }

  /** Patches of the chain whose three-term sum is the carry case. */
  function Carries(c: u16, before: nat, lens: seq<nat>): nat
    requires before + 28 < 0x1_0000 && LengthsOk(lens)
    decreases |lens|
  {
    if lens == [] then 0
    else
      (if PatchSum(c, before + 28, lens[0] + 28) == CARRY then 1 else 0)
      + Carries(ReplaceWord(c, before + 28, lens[0] + 28), lens[0], lens[1..])
  }

  predicate EndsInCarry(c: u16, before: nat, lens: seq<nat>)
    requires before + 28 < 0x1_0000 && LengthsOk(lens)
    decreases |lens|
  {
    if lens == [] then false
    else if |lens| == 1 then PatchSum(c, before + 28, lens[0] + 28) == CARRY
    else EndsInCarry(ReplaceWord(c, before + 28, lens[0] + 28), lens[0], lens[1..])
  }

  lemma {:induction false} PatchChainBytes(l2: seq<byte>, f: Fields, before: nat, lens: seq<nat>, c: u16)
    requires before + 28 < 0x1_0000 && LengthsOk(lens)
    ensures LastLen(before, lens) + 28 < 0x1_0000
    ensures PatchChain(WithChecksum(l2, WithPayload(f, before), c), |l2|, lens)
         == Some(WithChecksum(l2, WithPayload(f, LastLen(before, lens)), ChainChecksum(c, before, lens)))
    decreases |lens|
  {
    hide WithChecksum, PatchLengths, ReplaceWord;
    if lens != [] {
      PatchedBytes(l2, f, before, lens[0], c);
      PatchChainBytes(l2, f, lens[0], lens[1..], ReplaceWord(c, before + 28, lens[0] + 28));
    }
  }

  /** One patch keeps the residue of the stored sum, less one in the carry case, and
      leaves a zero sum in that case only. */
  lemma PatchResidueStep(c: u16, before: u16, after: u16)
    returns (k: int)
    requires after > 0
    ensures var carry := PatchSum(c, before, after) == CARRY;
      && Not(ReplaceWord(c, before, after)) == Not(c) - before + after - (if carry then 1 else 0) + k * ONES
      && (Not(ReplaceWord(c, before, after)) == 0 <==> carry)
  {
    var s := PatchSum(c, before, after);
    k := 1 - s / 0x1_0000 - if s == CARRY then 1 else 0;
    assert FoldOnce(s) == s - (s / 0x1_0000) * ONES;
  }

  /** Along a chain the stored sum falls behind the true one by the number of carries,
      modulo 65535. */
  lemma {:induction false} ChainResidue(c: u16, before: nat, lens: seq<nat>) returns (k: int)
    requires before + 28 < 0x1_0000 && LengthsOk(lens)
    ensures Not(ChainChecksum(c, before, lens)) == Not(c) - before + LastLen(before, lens) - Carries(c, before, lens)
      + k * ONES
    ensures lens != [] ==> (Not(ChainChecksum(c, before, lens)) == 0 <==> EndsInCarry(c, before, lens))
    decreases |lens|
  {
    hide ReplaceWord, PatchSum, Not;
    if lens == [] {
      k := 0;
    } else {
      var next := ReplaceWord(c, before + 28, lens[0] + 28);
      var j := PatchResidueStep(c, before + 28, lens[0] + 28);
      var i := ChainResidue(next, lens[0], lens[1..]);
      k := i + j;
      AddMultiples(i, j);
      if |lens| == 1 { assert lens[1..] == []; }
    }
  }

  lemma AddMultiples(i: int, j: int)
    ensures (i + j) * ONES == i * ONES + j * ONES
  {
  }

  /** The number of carries of a chain of patches that starts from a fresh header. */
  function ChainCarries(f: Fields, before: nat, lens: seq<nat>): nat
    requires before + 28 < 0x1_0000 && LengthsOk(lens)
  {
    Carries(HeaderChecksumOf(WithPayload(f, before)), before, lens)
  }

  lemma CongruentCanon(s: nat, m: u16, carries: nat, k: int)
    requires s > 0 && m == Canon(s) - carries + k * ONES
    ensures carries % ONES == 0 <==> (m == Canon(s) || (m == 0 && Canon(s) == ONES))
  {
    var d := m - Canon(s);
    assert 0 - ONES <= d < ONES && d == k * ONES - carries;
    if carries % ONES == 0 {
      var q := carries / ONES;
      assert carries == q * ONES;
      AddMultiples(k, -q);
      assert d == (k - q) * ONES;
    } else {
      MultipleOfOnes(carries, k);
      MultipleOfOnes(carries, k + 1);
      AddMultiples(k, 1);
    }
  }

  lemma MultipleOfOnes(x: nat, k: int)
    requires x % ONES != 0
    ensures x != k * ONES
  {
  }

  /** The stored sum at the end of a chain against the true one. */
  lemma ChainDecides(f: Fields, before: nat, lens: seq<nat>)
    requires before + 28 < 0x1_0000 && LengthsOk(lens) && LastLen(before, lens) + 28 < 0x1_0000
    ensures var c := HeaderChecksumOf(WithPayload(f, before)); var m := Not(ChainChecksum(c, before, lens));
      var t := Canon(HeaderSum(WithPayload(f, LastLen(before, lens))));
      && 1 <= t
      && (ChainCarries(f, before, lens) % ONES == 0 <==> (m == t || (m == 0 && t == ONES)))
      && (lens != [] ==> (m == 0 <==> EndsInCarry(c, before, lens)))
      && (lens == [] ==> m == t && !EndsInCarry(c, before, lens))
  {
    hide ChainChecksum, Carries, EndsInCarry, WordSum, LengthsOk, Canon;
    var last := LastLen(before, lens);
    var s, t := HeaderSum(WithPayload(f, before)), HeaderSum(WithPayload(f, last));
    var c := HeaderChecksumOf(WithPayload(f, before));
    SumOfLength(f, before, last);
    var k := ChainResidue(c, before, lens);
    var j := CanonShift(s, t);
    AddMultiples(k, j);
    CongruentCanon(t, Not(ChainChecksum(c, before, lens)), ChainCarries(f, before, lens), k + j);
    NoPatches(c, before);
  }

  lemma NoPatches(c: u16, before: nat)
    requires before + 28 < 0x1_0000
    ensures ChainChecksum(c, before, []) == c && !EndsInCarry(c, before, [])
  {
  }

  lemma CanonShift(s: nat, t: nat) returns (j: int)
    requires s > 0 && t > 0
    ensures Canon(s) - s + t == Canon(t) + j * ONES && Canon(t) >= 1
  {
    var p, q := (s - 1) / ONES, (t - 1) / ONES;
    assert s == Canon(s) + p * ONES && t == Canon(t) + q * ONES;
    j := q - p;
    AddMultiples(q, -p);
  }

  /** Exactly when a chain of patches from a fresh header ends with the right checksum: its
      carries cancel modulo 65535 and its last patch is none of them. */
  predicate ChainIsRight(f: Fields, before: nat, lens: seq<nat>)
    requires before + 28 < 0x1_0000 && LengthsOk(lens)
  {
    && ChainCarries(f, before, lens) % ONES == 0
    && !EndsInCarry(HeaderChecksumOf(WithPayload(f, before)), before, lens)
  }

  lemma ChainChecksumRight(f: Fields, before: nat, lens: seq<nat>)
    requires before + 28 < 0x1_0000 && LengthsOk(lens)
    ensures LastLen(before, lens) + 28 < 0x1_0000
    ensures ChainChecksum(HeaderChecksumOf(WithPayload(f, before)), before, lens)
            == HeaderChecksumOf(WithPayload(f, LastLen(before, lens)))
       <==> ChainIsRight(f, before, lens)
  {
    hide ChainChecksum, Carries, EndsInCarry, WordSum, Canon;
    ChainDecides(f, before, lens);
  }

  /** A chain of patches ends in the freshly written header of its last length if and
      only if the carries among its patches cancel modulo 65535 and the last patch is
      none of them.  After a first carry every later header is wrong until 65535 carries
      have been met. */
  lemma PatchChainIsFresh(l2: seq<byte>, f: Fields, before: nat, lens: seq<nat>)
    requires before + 28 < 0x1_0000 && LengthsOk(lens)
    ensures LastLen(before, lens) + 28 < 0x1_0000
    ensures PatchChain(Template(l2, f, before), |l2|, lens) == Some(Template(l2, f, LastLen(before, lens)))
       <==> ChainIsRight(f, before, lens)
  {
    hide Template, WithChecksum, PatchChain, ChainChecksum, ChainIsRight, HeaderChecksumOf, LengthsOk;
    var b := WithPayload(f, before);
    var c := HeaderChecksumOf(b);
    var last := LastLen(before, lens);
    PatchChainBytes(l2, f, before, lens, c);
    var a := WithPayload(f, last);
    TemplateChecksum(l2, f, before);
    TemplateChecksum(l2, f, last);
    OneChecksum(l2, a, ChainChecksum(c, before, lens), HeaderChecksumOf(a));
    ChainChecksumRight(f, before, lens);
  }

  /** A patch at the end of a chain. */
  lemma {:induction false} ChainAppend(c: u16, before: nat, lens: seq<nat>, len: nat)
    requires before + 28 < 0x1_0000 && LengthsOk(lens) && len + 28 < 0x1_0000
    ensures LengthsOk(lens + [len]) && LastLen(before, lens) + 28 < 0x1_0000 && LastLen(before, lens + [len]) == len
    ensures ChainChecksum(c, before, lens + [len])
         == ReplaceWord(ChainChecksum(c, before, lens), LastLen(before, lens) + 28, len + 28)
    decreases |lens|
  {
    hide ReplaceWord;
    if lens == [] {
      assert ([] + [len])[1..] == [];
    } else {
      assert (lens + [len])[1..] == lens[1..] + [len];
      ChainAppend(ReplaceWord(c, before + 28, lens[0] + 28), lens[0], lens[1..], len);
    }
  }

  /** No patch of the chain goes from one length to the next over the carry case. */
  ghost predicate NoCarryOnTheWay(f: Fields, before: nat, lens: seq<nat>)
    requires before + 28 < 0x1_0000 && LengthsOk(lens)
    decreases |lens|
  {
    lens == [] || (!HitsCarry(f, before, lens[0]) && NoCarryOnTheWay(f, lens[0], lens[1..]))
  }

  /** Counting carries from a fresh header and looking at the lengths pair by pair agree on
      whether there is any. */
  lemma {:induction false} NoCarries(f: Fields, before: nat, lens: seq<nat>)
    requires before + 28 < 0x1_0000 && LengthsOk(lens)
    ensures ChainCarries(f, before, lens) == 0 <==> NoCarryOnTheWay(f, before, lens)
    decreases |lens|
  {
    hide ReplaceWord, PatchSum, HeaderChecksumOf;
    if lens != [] && !HitsCarry(f, before, lens[0]) {
      PatchedChecksum(f, before, lens[0]);
      NoCarries(f, lens[0], lens[1..]);
    }
  }

  /** Without a carry on the way the chain is right; with fewer than 65535 patches only then. */
  lemma CleanChainIsRight(f: Fields, before: nat, lens: seq<nat>)
    requires before + 28 < 0x1_0000 && LengthsOk(lens)
    ensures NoCarryOnTheWay(f, before, lens) ==> ChainIsRight(f, before, lens)
    ensures ChainIsRight(f, before, lens) && |lens| < ONES ==> NoCarryOnTheWay(f, before, lens)
  {
    hide HeaderChecksumOf, Carries, EndsInCarry, NoCarryOnTheWay;
    NoCarries(f, before, lens);
    CarriesBound(HeaderChecksumOf(WithPayload(f, before)), before, lens);
  }

  /** A receiver accepts the header at the end of a chain if and only if the carries
      cancel modulo 65535. */
  lemma PatchChainVerifies(f: Fields, before: nat, lens: seq<nat>)
    requires before + 28 < 0x1_0000 && LengthsOk(lens)
    ensures LastLen(before, lens) + 28 < 0x1_0000
    ensures var a := WithPayload(f, LastLen(before, lens));
      var c := ChainChecksum(HeaderChecksumOf(WithPayload(f, before)), before, lens);
      Not(Canon(WordSum(IpHeaderWith(a, c), 10))) == 0 <==> ChainCarries(f, before, lens) % ONES == 0
  {
    hide ChainChecksum, Carries, EndsInCarry, WordSum, Canon, IpHeaderWith;
    var last := LastLen(before, lens);
    var a := WithPayload(f, last);
    var c := ChainChecksum(HeaderChecksumOf(WithPayload(f, before)), before, lens);
    SumOfLength(f, before, last);
    ChainDecides(f, before, lens);
    SumWithChecksum(a, c);
    VerifiesWhen(HeaderSum(a), c);
  }

  lemma VerifiesWhen(s: nat, c: u16)
    requires s > 0
    ensures Canon(s + c) == ONES <==> (Not(c) == Canon(s) || (Not(c) == 0 && Canon(s) == ONES))
  {
    var t, k := Canon(s), (s - 1) / ONES;
    assert s == t + k * ONES;
    if t + c <= ONES {
      CanonUnique(s + c, t + c, k);
    } else {
      CanonUnique(s + c, t + c - ONES, k + 1);
    }
  }

  lemma {:induction false} CarriesBound(c: u16, before: nat, lens: seq<nat>)
    requires before + 28 < 0x1_0000 && LengthsOk(lens)
    ensures Carries(c, before, lens) <= |lens| && (EndsInCarry(c, before, lens) ==> Carries(c, before, lens) > 0)
    decreases |lens|
  {
    hide ReplaceWord, PatchSum;
    if lens != [] { CarriesBound(ReplaceWord(c, before + 28, lens[0] + 28), lens[0], lens[1..]); }
  }

  /** Fewer than 65535 patches: fresh if and only if none of them met the carry case. */
  lemma ShortChainIsFresh(l2: seq<byte>, f: Fields, before: nat, lens: seq<nat>)
    requires before + 28 < 0x1_0000 && LengthsOk(lens) && |lens| < ONES
    ensures LastLen(before, lens) + 28 < 0x1_0000
    ensures PatchChain(Template(l2, f, before), |l2|, lens) == Some(Template(l2, f, LastLen(before, lens)))
       <==> ChainCarries(f, before, lens) == 0
  {
    hide Template, PatchChain, Carries, EndsInCarry, HeaderChecksumOf;
    PatchChainIsFresh(l2, f, before, lens);
    CarriesBound(HeaderChecksumOf(WithPayload(f, before)), before, lens);
  }
}
