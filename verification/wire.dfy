/** Packet formats: what the output functions serialise and the input functions parse
    (src/lib/udp.c, src/lib/ip.c, src/lib/icmp.c, src/lib/arp.c, src/lib/ether.c).

    Memory and the wire are byte sequences. Ports and addresses are words in network
    order, so storing them with the host's byte order puts the wire order in memory. */
module Wire {
  import opened Options
  import opened Words
  import opened Checksum
  import opened ArpCache

  const IP_HEADER := 20
  const UDP_HEADER := 8
  const ICMP_HEADER := 8
  const ETHER_HEADER := 14
  const MAX_IP_PAYLOAD := 0xffff - IP_HEADER
  const ETHER_FRAME_MAX := 1514
  const ETHER_PAYLOAD_MIN := 46
  const ETHER_PAYLOAD_MAX := 1500

  const PROTO_ICMP: u8 := 1
  const PROTO_UDP: u8 := 17
  const TYPE_IP: u16 := 0x0800
  const TYPE_ARP: u16 := 0x0806

  const MAC_BROADCAST: Mac := [0xff, 0xff, 0xff, 0xff, 0xff, 0xff]

  /** A word of a packet as the host reads it, and converted from network order. */
  function Raw16(s: seq<u8>, k: nat): u16
    requires k + 2 <= |s|
  {
    Load16(Little, s[k], s[k + 1])
  }

  function Net16(s: seq<u8>, k: nat): u16
    requires k + 2 <= |s|
  {
    Ntoh16(Little, Raw16(s, k))
  }

  function Raw32(s: seq<u8>, k: nat): u32
    requires k + 4 <= |s|
  {
    Load32(s[k..k + 4])
  }

  /** The bytes of a raw word, and of a host-order word converted to network order. */
  function R16(v: u16): (s: seq<u8>)
    ensures |s| == 2 && Load16(Little, s[0], s[1]) == v
  {
    Store16(Little, v)
  }

  function N16(v: u16): (s: seq<u8>)
    ensures |s| == 2
  {
    Store16(Little, Hton16(Little, v))
  }

  function Zeros(n: nat): (s: seq<u8>)
    ensures |s| == n && forall i :: 0 <= i < n ==> s[i] == 0
  {
    seq(n, _ => 0)
  }

  lemma NetRoundTrip(v: u16)
    ensures Ntoh16(Little, Load16(Little, N16(v)[0], N16(v)[1])) == v
  {
    NetworkOrder(Little, v);
  }

  /** A number as two bytes, high byte first. */
  function Big16(v: u16): (s: seq<u8>)
    ensures |s| == 2
  {
    [v / 0x100, v % 0x100]
  }

  /** A checksum seeded with the part `p` and stored in a zeroed field is the checksum of
      section 1 of RFC 1071 over both parts, high byte first. */
  lemma StoredIsRfc(p: seq<u8>, z: seq<u8>, k: nat)
    requires |p| % 2 == 0 && |p| + |z| <= 0xffff && k + 2 <= |z|
    ensures Put16(Little, z, k, Cksum(Little, z, 0xffff - Cksum(Little, p, 0)))
            == z[..k] + Big16(RfcChecksum(p + z)) + z[k + 2..]
  {
    Chaining(Little, p, z);
    NetworkChecksumIff(Little, p + z);
    NetworkOrder(Little, RfcChecksum(p + z));
  }

  lemma UnseededIsRfc(z: seq<u8>, k: nat)
    requires |z| <= 0xffff && k + 2 <= |z|
    ensures Put16(Little, z, k, Cksum(Little, z, 0)) == z[..k] + Big16(RfcChecksum(z)) + z[k + 2..]
  {
    NetworkChecksumIff(Little, z);
    NetworkOrder(Little, RfcChecksum(z));
  }

  // ---------------------------------------------------------------- UDP

  function PseudoHeader(src: u32, dst: u32, len: u16): (s: seq<u8>)
    ensures |s| == 12
  {
    Store32(src) + Store32(dst) + [0, PROTO_UDP] + N16(len)
  }

  /** The seed both sides compute from the pseudo header. */
  function PseudoSum(src: u32, dst: u32, len: u16): u16 {
    0xffff - Cksum(Little, PseudoHeader(src, dst, len), 0)
  }

  /** A segment before its checksum is filled in. */
  function UdpUnsummed(sport: u16, dport: u16, data: seq<u8>): (s: seq<u8>)
    requires |data| <= MAX_IP_PAYLOAD - UDP_HEADER
    ensures |s| == UDP_HEADER + |data|
  {
    R16(sport) + R16(dport) + N16(UDP_HEADER + |data|) + [0, 0] + data
  }

  /** What `udp_output` hands to the IP layer. */
  function UdpSegment(src: u32, sport: u16, dst: u32, dport: u16, data: seq<u8>): (s: seq<u8>)
    requires |data| <= MAX_IP_PAYLOAD - UDP_HEADER
    ensures |s| == UDP_HEADER + |data|
  {
    var z := UdpUnsummed(sport, dport, data);
    Put16(Little, z, 6, Cksum(Little, z, PseudoSum(src, dst, |z|)))
  }

  datatype UdpIn = UdpIn(sport: u16, dport: u16, data: seq<u8>)

  /** The checks of `udp_input` before it looks for a control block. */
  function ParseUdp(s: seq<u8>, src: u32, dst: u32): Option<UdpIn> {
    if |s| < UDP_HEADER || |s| != Net16(s, 4) then None
    else if Cksum(Little, s, PseudoSum(src, dst, |s|)) != 0 then None
    else Some(UdpIn(Raw16(s, 0), Raw16(s, 2), s[UDP_HEADER..]))
  }

  /** The receiver of a segment gets back exactly what was sent. */
  lemma UdpRoundTrip(src: u32, sport: u16, dst: u32, dport: u16, data: seq<u8>)
    requires |data| <= MAX_IP_PAYLOAD - UDP_HEADER
    ensures ParseUdp(UdpSegment(src, sport, dst, dport, data), src, dst) == Some(UdpIn(sport, dport, data))
  {
    var z, s := UdpUnsummed(sport, dport, data), UdpSegment(src, sport, dst, dport, data);
    StoreThenVerify(Little, z, 6, PseudoSum(src, dst, |z|));
    NetRoundTrip(UDP_HEADER + |data|);
    assert z[..6] == R16(sport) + R16(dport) + N16(UDP_HEADER + |data|);
    assert s[0] == z[..6][0] && s[1] == z[..6][1] && s[2] == z[..6][2] && s[3] == z[..6][3];
    assert s[4] == z[..6][4] && s[5] == z[..6][5];
    assert s[8..] == z[8..] == data;
  }

  /** The checksum of a segment is the RFC 1071 checksum over source, destination, zero,
      protocol 17, length and the segment without it. */
  lemma UdpChecksumIsRfc(src: u32, sport: u16, dst: u32, dport: u16, data: seq<u8>)
    requires |data| <= MAX_IP_PAYLOAD - UDP_HEADER
    ensures var z := R16(sport) + R16(dport) + Big16(UDP_HEADER + |data|) + [0, 0] + data;
            var covered := Store32(src) + Store32(dst) + [0, 17] + Big16(|z|) + z;
            UdpSegment(src, sport, dst, dport, data) == z[..6] + Big16(RfcChecksum(covered)) + z[8..]
  {
    var z := UdpUnsummed(sport, dport, data);
    NetworkOrder(Little, |z|);
    StoredIsRfc(PseudoHeader(src, dst, |z|), z, 6);
  }

  /** The seed is never zero, because the protocol number is not. */
  lemma PseudoSumPositive(src: u32, dst: u32, len: u16)
    ensures PseudoSum(src, dst, len) != 0
  {
    var addresses, rest := Store32(src) + Store32(dst), [0, PROTO_UDP] + N16(len);
    assert PseudoHeader(src, dst, len) == addresses + rest;
    SumAppend(Little, addresses, rest);
    assert rest[2..] == N16(len);
    Unseeded(Little, PseudoHeader(src, dst, len));
  }

  /** A segment with one aligned word replaced is still accepted exactly if the word is the
      same, or was changed between 0x0000 and 0xffff outside the length field. */
  lemma CorruptedWord(s: seq<u8>, src: u32, dst: u32, k: nat, w: u16)
    requires ParseUdp(s, src, dst).Some? && k % 2 == 0 && k + 2 <= |s|
    ensures var prev := Raw16(s, k);
            ParseUdp(Put16(Little, s, k, w), src, dst).Some?
            <==> w == prev || (k != 4 && {w, prev} == {0, 0xffff})
  {
    var t := Put16(Little, s, k, w);
    ErrorDetection(Little, s, k, w, PseudoSum(src, dst, |s|));
    PseudoSumPositive(src, dst, |s|);
    if k == 4 {
      LengthWord(s, w);
    } else {
      assert t[4] == s[4] && t[5] == s[5];
    }
  }

  lemma LengthWord(s: seq<u8>, w: u16)
    requires |s| >= UDP_HEADER
    ensures Net16(Put16(Little, s, 4, w), 4) == Net16(s, 4) <==> w == Raw16(s, 4)
  {
    Swap16Halves(w);
    Swap16Halves(Raw16(s, 4));
  }

  // ---------------------------------------------------------------- IP

  /** The header of `ip_output_core` before its checksum is filled in: version 4, five
      words, no options, not a fragment. */
  function IpUnsummed(proto: u8, total: u16, id: u16, src: u32, dst: u32): (s: seq<u8>)
    ensures |s| == IP_HEADER
  {
    [0x45, 0] + N16(total) + N16(id) + N16(0) + [0xff, proto] + [0, 0] + Store32(src) + Store32(dst)
  }

  lemma UnsummedParts(proto: u8, total: u16, id: u16, src: u32, dst: u32)
    ensures var z := IpUnsummed(proto, total, id, src, dst);
            && z[..10] == [0x45, 0] + N16(total) + N16(id) + N16(0) + [0xff, proto]
            && z[12..16] == Store32(src) && z[16..20] == Store32(dst)
  {
  }

  function IpHeader(proto: u8, total: u16, id: u16, src: u32, dst: u32): (s: seq<u8>)
    ensures |s| == IP_HEADER
  {
    var z := IpUnsummed(proto, total, id, src, dst);
    Put16(Little, z, 10, Cksum(Little, z, 0))
  }

  /** What `ip_output_core` hands to the device. */
  function IpPacket(proto: u8, data: seq<u8>, id: u16, src: u32, dst: u32): (s: seq<u8>)
    requires |data| <= MAX_IP_PAYLOAD
    ensures |s| == IP_HEADER + |data|
  {
    IpHeader(proto, IP_HEADER + |data|, id, src, dst) + data
  }

  const TWO64 := 0x1_0000_0000_0000_0000

  /** An `int` passed as a `size_t` wraps around below 0. */
  function SizeT(n: int): nat
    requires -TWO64 <= n < TWO64
  {
    if n < 0 then n + TWO64 else n
  }

  /** What `ip_input` passes to a protocol handler: where its data starts in the packet and
      the difference of the two 16-bit lengths as a `size_t`. */
  datatype Upcall = Upcall(proto: u8, src: u32, dst: u32, at: nat, length: nat)

  /** The checks of `ip_input` before it looks for a protocol and for the addressed interface.
      The two lengths are compared with the packet only, not with each other. */
  function HandUp(s: seq<u8>): Option<Upcall> {
    if |s| < IP_HEADER then None
    else
      var hlen := s[0] % 16 * 4;
      var total := Net16(s, 2);
      if s[0] / 16 != 4 || hlen > |s| || total > |s| || Cksum(Little, s[..hlen], 0) != 0 then None
      else if Net16(s, 6) % 0x4000 != 0 then None
      else Some(Upcall(s[9], Raw32(s, 12), Raw32(s, 16), hlen, SizeT(total - hlen)))
  }

  /** The handler's data lies inside the packet. */
  predicate Inside(s: seq<u8>, u: Upcall) {
    u.at + u.length <= |s|
  }

  datatype IpIn = Malformed | Overrun(proto: u8) | Payload(proto: u8, src: u32, dst: u32, data: seq<u8>)

  /** The payload as bytes, if it lies inside the packet. */
  function ParseIp(s: seq<u8>): IpIn {
    var u := HandUp(s);
    if u.None? then Malformed
    else if !Inside(s, u.value) then Overrun(u.value.proto)
    else Payload(u.value.proto, u.value.src, u.value.dst, s[u.value.at..u.value.at + u.value.length])
  }

  /** The data handed up lies inside the packet exactly when the header length does not exceed
      the total length, which `ip_input` does not check. `len` is a `size_t`. */
  lemma PayloadInside(s: seq<u8>)
    requires |s| < TWO64 && HandUp(s).Some?
    ensures Inside(s, HandUp(s).value) <==> s[0] % 16 * 4 <= Net16(s, 2)
    ensures Inside(s, HandUp(s).value) ==> HandUp(s).value.length == Net16(s, 2) - s[0] % 16 * 4
  {
  }

  /** An overrun length equals no 16-bit field, so `udp_input` refuses it; cut to 16 bits, as
      `icmp_input` does for the checksum, it still reaches past any packet a device delivers. */
  lemma OverrunLength(s: seq<u8>, field: u16)
    requires |s| < TWO64 && HandUp(s).Some? && !Inside(s, HandUp(s).value)
    ensures HandUp(s).value.length != field
    ensures |s| <= 0xffff ==> HandUp(s).value.at + HandUp(s).value.length % 0x1_0000 > |s|
  {
    var hlen, total := s[0] % 16 * 4, Net16(s, 2);
    PayloadInside(s);
    Split16(TWO64 - (hlen - total), 0xffff_ffff_ffff, 0x1_0000 - (hlen - total));
  }

  /** A packet of six header words, with four bytes of options, and a total length of five. */
  function ShortTotal(proto: u8, src: u32, dst: u32): (s: seq<u8>)
    ensures |s| == 24
  {
    var z := IpUnsummed(proto, 20, 0, src, dst)[0 := 0x46] + [0, 0, 0, 0];
    Put16(Little, z, 10, Cksum(Little, z, 0))
  }

  /** For every protocol and all addresses `ip_input` accepts that packet and hands up a length
      that wrapped around. */
  lemma OverrunExample(proto: u8, src: u32, dst: u32)
    ensures var s := ShortTotal(proto, src, dst);
            && HandUp(s) == Some(Upcall(proto, src, dst, 24, TWO64 - 4)) && ParseIp(s) == Overrun(proto)
  {
    var h := IpUnsummed(proto, 20, 0, src, dst);
    var z, s := h[0 := 0x46] + [0, 0, 0, 0], ShortTotal(proto, src, dst);
    StoreThenVerify(Little, z, 10, 0);
    NetRoundTrip(20);
    NetRoundTrip(0);
    UnsummedParts(proto, 20, 0, src, dst);
    assert s[12..] == z[12..] && s[12..16] == z[12..][..4] && s[16..20] == z[12..][4..8];
    assert z[12..][..4] == h[12..16] && z[12..][4..8] == h[16..20];
    assert s[2] == h[..10][2] && s[3] == h[..10][3] && s[6] == h[..10][6] && s[7] == h[..10][7] && s[9] == h[..10][9];
    Load32Store32(src);
    Load32Store32(dst);
    AcceptedShort(s);
  }

  lemma AcceptedShort(s: seq<u8>)
    requires |s| == 24 && s[0] == 0x46 && Net16(s, 2) == 20 && Net16(s, 6) == 0 && Cksum(Little, s, 0) == 0
    ensures HandUp(s) == Some(Upcall(s[9], Raw32(s, 12), Raw32(s, 16), 24, TWO64 - 4)) && ParseIp(s) == Overrun(s[9])
  {
    assert s[..24] == s;
  }

  lemma IpHeaderBytes(proto: u8, total: u16, id: u16, src: u32, dst: u32)
    ensures var h := IpHeader(proto, total, id, src, dst);
            && h[0] == 0x45 && h[1] == 0 && Net16(h, 2) == total && Net16(h, 4) == id && Net16(h, 6) == 0
            && h[8] == 0xff && h[9] == proto
            && Raw32(h, 12) == src && Raw32(h, 16) == dst
            && Cksum(Little, h, 0) == 0
  {
    var z, h := IpUnsummed(proto, total, id, src, dst), IpHeader(proto, total, id, src, dst);
    StoreThenVerify(Little, z, 10, 0);
    NetRoundTrip(total);
    NetRoundTrip(id);
    NetRoundTrip(0);
    UnsummedParts(proto, total, id, src, dst);
    assert h[..10] == z[..10];
    assert h[0] == z[..10][0] && h[1] == z[..10][1] && h[2] == z[..10][2] && h[3] == z[..10][3];
    assert h[4] == z[..10][4] && h[5] == z[..10][5] && h[6] == z[..10][6] && h[7] == z[..10][7];
    assert h[12..] == z[12..] && h[12..16] == z[12..][..4] == z[12..16] && h[16..20] == z[12..][4..8] == z[16..20];
    Load32Store32(src);
    Load32Store32(dst);
  }

  lemma IpChecksumIsRfc(proto: u8, total: u16, id: u16, src: u32, dst: u32)
    ensures var z := IpUnsummed(proto, total, id, src, dst);
            IpHeader(proto, total, id, src, dst) == z[..10] + Big16(RfcChecksum(z)) + z[12..]
  {
    UnseededIsRfc(IpUnsummed(proto, total, id, src, dst), 10);
  }

  /** A verified header of five words with these fields hands up what follows it. */
  lemma PlainHeader(s: seq<u8>, total: u16)
    requires IP_HEADER <= total <= |s| && s[0] == 0x45 && Net16(s, 2) == total && Net16(s, 6) == 0
    requires Cksum(Little, s[..IP_HEADER], 0) == 0
    ensures ParseIp(s) == Payload(s[9], Raw32(s, 12), Raw32(s, 16), s[IP_HEADER..total])
  {
  }

  /** A packet is parsed back to its payload and addresses, and bytes after its total
      length, such as Ethernet padding, are trimmed. */
  lemma IpRoundTrip(proto: u8, data: seq<u8>, id: u16, src: u32, dst: u32, pad: seq<u8>)
    requires |data| <= MAX_IP_PAYLOAD
    ensures ParseIp(IpPacket(proto, data, id, src, dst) + pad) == Payload(proto, src, dst, data)
  {
    var h := IpHeader(proto, IP_HEADER + |data|, id, src, dst);
    var s := IpPacket(proto, data, id, src, dst) + pad;
    IpHeaderBytes(proto, IP_HEADER + |data|, id, src, dst);
    assert s == h + (data + pad);
    HeaderFields(h, data + pad);
    assert s[20..20 + |data|] == data;
    PlainHeader(s, IP_HEADER + |data|);
  }

  lemma HeaderFields(h: seq<u8>, rest: seq<u8>)
    requires |h| == IP_HEADER
    ensures var s := h + rest;
            && s[..IP_HEADER] == h && s[0] == h[0] && s[9] == h[9]
            && Net16(s, 2) == Net16(h, 2) && Net16(s, 6) == Net16(h, 6)
            && Raw32(s, 12) == Raw32(h, 12) && Raw32(s, 16) == Raw32(h, 16)
  {
    var s := h + rest;
    assert s[12..16] == h[12..16] && s[16..20] == h[16..20];
  }

  // ---------------------------------------------------------------- Ethernet

  /** The zeros that fill a short payload up to 46 bytes. */
  function Padding(data: seq<u8>): (p: seq<u8>)
    ensures |data| + |p| == if |data| < ETHER_PAYLOAD_MIN then ETHER_PAYLOAD_MIN else |data|
    ensures forall k :: 0 <= k < |p| ==> p[k] == 0
  {
    if |data| < ETHER_PAYLOAD_MIN then Zeros(ETHER_PAYLOAD_MIN - |data|) else []
  }

  /** The frame of `ether_transmit_helper`, padded with zeros to 60 bytes. */
  function EtherFrame(dst: Mac, src: Mac, kind: u16, data: seq<u8>): (s: seq<u8>)
    ensures |s| >= 60
  {
    dst + src + N16(kind) + data + Padding(data)
  }

  datatype EtherIn = EtherIn(kind: u16, data: seq<u8>)

  /** `ether_poll_helper`: what a device with this address hands to the protocol queues.
      The driver fills a buffer of 1514 bytes. */
  function PollEther(address: Mac, wire: seq<u8>): Option<EtherIn> {
    var frame := if |wire| > ETHER_FRAME_MAX then wire[..ETHER_FRAME_MAX] else wire;
    if |frame| < ETHER_HEADER then None
    else if frame[..6] != address && frame[..6] != MAC_BROADCAST then None
    else Some(EtherIn(Net16(frame, 12), frame[ETHER_HEADER..]))
  }

  /** A frame is accepted exactly by the addressed device and, if broadcast, by every
      device; the payload arrives with its padding. */
  lemma EtherRoundTrip(dst: Mac, src: Mac, kind: u16, data: seq<u8>, address: Mac)
    requires |data| <= ETHER_PAYLOAD_MAX
    ensures var r := PollEther(address, EtherFrame(dst, src, kind, data));
            && (r.Some? <==> address == dst || dst == MAC_BROADCAST)
            && (r.Some? ==> r.value == EtherIn(kind, data + Padding(data)))
    ensures EtherFrame(dst, src, kind, data)[6..12] == src
  {
    var f := EtherFrame(dst, src, kind, data);
    assert f[..6] == dst;
    assert f[12..14] == N16(kind);
    assert f[12] == f[12..14][0] && f[13] == f[12..14][1];
    assert f[14..] == data + Padding(data);
    NetRoundTrip(kind);
  }

  // ---------------------------------------------------------------- ICMP

  const ECHO_REPLY: u8 := 0
  const ECHO: u8 := 8

  function IcmpUnsummed(kind: u8, code: u8, values: u32, data: seq<u8>): (s: seq<u8>)
    ensures |s| == ICMP_HEADER + |data|
  {
    [kind, code] + [0, 0] + Store32(values) + data
  }

  /** The message of `icmp_output`. */
  function IcmpMessage(kind: u8, code: u8, values: u32, data: seq<u8>): (s: seq<u8>)
    ensures |s| == ICMP_HEADER + |data|
  {
    var z := IcmpUnsummed(kind, code, values, data);
    Put16(Little, z, 2, Cksum(Little, z, 0))
  }

  datatype IcmpIn = IcmpIn(kind: u8, code: u8, values: u32, data: seq<u8>)

  /** The checks of `icmp_input`. */
  function ParseIcmp(s: seq<u8>): Option<IcmpIn> {
    if |s| < ICMP_HEADER || Cksum(Little, s, 0) != 0 then None
    else Some(IcmpIn(s[0], s[1], Raw32(s, 4), s[ICMP_HEADER..]))
  }

  lemma IcmpRoundTrip(kind: u8, code: u8, values: u32, data: seq<u8>)
    requires |data| <= MAX_IP_PAYLOAD - ICMP_HEADER
    ensures ParseIcmp(IcmpMessage(kind, code, values, data)) == Some(IcmpIn(kind, code, values, data))
  {
    var z, s := IcmpUnsummed(kind, code, values, data), IcmpMessage(kind, code, values, data);
    StoreThenVerify(Little, z, 2, 0);
    assert s[0] == z[..2][0] && s[1] == z[..2][1];
    assert z[4..] == Store32(values) + data;
    assert s[4..8] == z[4..][..4] == Store32(values);
    assert s[8..] == z[4..][4..] == data;
    Load32Store32(values);
  }

  // ---------------------------------------------------------------- ARP

  const ARP_LENGTH := 28
  const ARP_REQUEST: u16 := 1
  const ARP_REPLY: u16 := 2

  /** The message of `arp_request` and `arp_reply`. */
  function ArpPacket(op: u16, sha: Mac, spa: u32, tha: Mac, tpa: u32): (s: seq<u8>)
    ensures |s| == ARP_LENGTH
  {
    N16(1) + N16(TYPE_IP) + [6, 4] + N16(op) + sha + Store32(spa) + tha + Store32(tpa)
  }

  /** The checks of `arp_input`. */
  function ParseArp(s: seq<u8>): Option<Message> {
    if |s| < ARP_LENGTH then None
    else if Net16(s, 0) != 1 || s[4] != 6 then None
    else if Net16(s, 2) != TYPE_IP || s[5] != 4 then None
    else Some(Message(s[8..14], Raw32(s, 14), Raw32(s, 24), Net16(s, 6) == ARP_REQUEST))
  }

  lemma ArpRoundTrip(op: u16, sha: Mac, spa: u32, tha: Mac, tpa: u32, pad: seq<u8>)
    ensures ParseArp(ArpPacket(op, sha, spa, tha, tpa) + pad) == Some(Message(sha, spa, tpa, op == ARP_REQUEST))
  {
    var s := ArpPacket(op, sha, spa, tha, tpa) + pad;
    NetRoundTrip(1);
    NetRoundTrip(TYPE_IP);
    NetRoundTrip(op);
    assert s[..8] == N16(1) + N16(TYPE_IP) + [6, 4] + N16(op);
    assert s[0] == s[..8][0] && s[1] == s[..8][1] && s[2] == s[..8][2] && s[3] == s[..8][3];
    assert s[4] == s[..8][4] && s[5] == s[..8][5] && s[6] == s[..8][6] && s[7] == s[..8][7];
    assert s[8..14] == sha;
    assert s[14..18] == Store32(spa);
    assert s[24..28] == Store32(tpa);
    Load32Store32(spa);
    Load32Store32(tpa);
  }

  /** The fields a receiver of `arp_input` does not look at are in place too. */
  lemma ArpFields(op: u16, sha: Mac, spa: u32, tha: Mac, tpa: u32)
    ensures var s := ArpPacket(op, sha, spa, tha, tpa); Net16(s, 6) == op && s[18..24] == tha
  {
    var s := ArpPacket(op, sha, spa, tha, tpa);
    NetRoundTrip(op);
    assert s[6..8] == N16(op);
    assert s[6] == s[6..8][0] && s[7] == s[6..8][1];
  }
}
