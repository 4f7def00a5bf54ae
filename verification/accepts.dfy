/** What the input functions accept, byte by byte and with the checksum of section 1 of
    RFC 1071, independent of how they compute it. */
module Accepts {
  import opened Options
  import opened Words
  import opened Checksum
  import opened ArpCache
  import opened Wire

  /** Two bytes, high byte first. */
  function BigAt(s: seq<u8>, k: nat): int
    requires k + 2 <= |s|
  {
    var high: int, low: int := s[k], s[k + 1];
    0x100 * high + low
  }

  lemma NetIsBig(s: seq<u8>, k: nat)
    requires k + 2 <= |s|
    ensures Net16(s, k) == BigAt(s, k)
  {
    Split8(Load16(Little, s[k], s[k + 1]), s[k + 1], s[k]);
  }

  /** The bytes verify: their ones-complement sum is all ones. */
  predicate Verifies(s: seq<u8>) {
    RfcSum(s) == 0xffff
  }

  lemma VerifiesIsRfc(s: seq<u8>)
    requires |s| <= 0xffff
    ensures Cksum(Little, s, 0) == 0 <==> Verifies(s)
  {
    LittleChecksum(s);
    SwapExact(RfcChecksum(s));
  }

  lemma SeededIsRfc(p: seq<u8>, s: seq<u8>)
    requires |p| % 2 == 0 && |p| + |s| <= 0xffff
    ensures Cksum(Little, s, 0xffff - Cksum(Little, p, 0)) == 0 <==> Verifies(p + s)
  {
    Chaining(Little, p, s);
    VerifiesIsRfc(p + s);
  }

  // ---------------------------------------------------------------- IP

  /** The bytes of the header: version 4, header and total length within the packet, header
      checksum right, neither a fragment nor followed by one. */
  predicate GoodHeader(s: seq<u8>) {
    && |s| >= 20 && s[0] / 16 == 4 && 4 * (s[0] % 16) <= |s| && BigAt(s, 2) <= |s|
    && Verifies(s[..4 * (s[0] % 16)]) && s[6] % 0x40 == 0 && s[7] == 0
  }

  lemma FragmentBits(s: seq<u8>)
    requires |s| >= 8
    ensures Net16(s, 6) % 0x4000 == 0 <==> s[6] % 0x40 == 0 && s[7] == 0
  {
    NetIsBig(s, 6);
    var flags: int, offset: int := s[6] / 0x40, s[6] % 0x40;
    var rest: int := 0x100 * offset + s[7];
    assert BigAt(s, 6) == 0x4000 * flags + rest && rest < 0x4000;
  }

  /** `ip_input` takes exactly the packets with a good header, and reads protocol and addresses
      from their places. */
  lemma IpAcceptedIff(s: seq<u8>)
    ensures HandUp(s).Some? <==> GoodHeader(s)
    ensures HandUp(s).Some? ==>
              var u := HandUp(s).value;
              && u.proto == s[9] && Store32(u.src) == s[12..16] && Store32(u.dst) == s[16..20]
              && u.at == 4 * (s[0] % 16)
  {
    if |s| >= 20 {
      NetIsBig(s, 2);
      FragmentBits(s);
      if 4 * (s[0] % 16) <= |s| { VerifiesIsRfc(s[..4 * (s[0] % 16)]); }
      Store32Load32(s[12..16]);
      Store32Load32(s[16..20]);
    }
  }

  lemma Store32Load32(s: seq<u8>)
    requires |s| == 4
    ensures Store32(Load32(s)) == s
  {
  }

  // ---------------------------------------------------------------- UDP and ICMP

  /** `udp_input` takes exactly the segments whose length field is their length and which verify
      together with the pseudo header of RFC 768. */
  lemma UdpAcceptedIff(s: seq<u8>, src: u32, dst: u32)
    requires |s| <= MAX_IP_PAYLOAD
    ensures ParseUdp(s, src, dst).Some?
            <==> |s| >= 8 && BigAt(s, 4) == |s|
                 && Verifies(Store32(src) + Store32(dst) + [0, 17] + [s[4], s[5]] + s)
    ensures ParseUdp(s, src, dst).Some? ==>
              var u := ParseUdp(s, src, dst).value;
              Store16(Little, u.sport) == s[..2] && Store16(Little, u.dport) == s[2..4] && u.data == s[8..]
  {
    if |s| >= 8 {
      NetIsBig(s, 4);
      if BigAt(s, 4) == |s| {
        PseudoBytes(s, src, dst);
        SeededIsRfc(PseudoHeader(src, dst, |s|), s);
      }
      StoreRaw(s, 0);
      StoreRaw(s, 2);
    }
  }

  lemma PseudoBytes(s: seq<u8>, src: u32, dst: u32)
    requires 8 <= |s| <= 0xffff && BigAt(s, 4) == |s|
    ensures PseudoHeader(src, dst, |s|) == Store32(src) + Store32(dst) + [0, 17] + [s[4], s[5]]
  {
    NetworkOrder(Little, |s|);
    Split8(|s|, s[4], s[5]);
  }

  lemma StoreRaw(s: seq<u8>, k: nat)
    requires k + 2 <= |s|
    ensures Store16(Little, Raw16(s, k)) == s[k..k + 2]
  {
    Split8(Raw16(s, k), s[k + 1], s[k]);
  }

  /** `icmp_input` takes exactly the messages with a whole header that verify. */
  lemma IcmpAcceptedIff(s: seq<u8>)
    requires |s| <= 0xffff
    ensures ParseIcmp(s).Some? <==> |s| >= 8 && Verifies(s)
    ensures ParseIcmp(s).Some? ==>
              var m := ParseIcmp(s).value;
              m.kind == s[0] && m.code == s[1] && Store32(m.values) == s[4..8] && m.data == s[8..]
  {
    VerifiesIsRfc(s);
    if |s| >= 8 { Store32Load32(s[4..8]); }
  }

  // ---------------------------------------------------------------- ARP and Ethernet

  /** `arp_input` takes exactly the messages for Ethernet and IPv4 addresses, and reads the
      addresses of RFC 826 from their places. */
  lemma ArpAcceptedIff(s: seq<u8>)
    ensures ParseArp(s).Some? <==> |s| >= 28 && s[..6] == [0, 1, 8, 0, 6, 4]
    ensures ParseArp(s).Some? ==>
              var m := ParseArp(s).value;
              && m.sha == s[8..14] && Store32(m.spa) == s[14..18] && Store32(m.tpa) == s[24..28]
              && (m.request <==> s[6..8] == [0, 1])
  {
    if |s| >= 28 {
      NetIsBig(s, 0);
      NetIsBig(s, 2);
      NetIsBig(s, 6);
      Store32Load32(s[14..18]);
      Store32Load32(s[24..28]);
      assert s[..6] == [s[0], s[1], s[2], s[3], s[4], s[5]] && s[6..8] == [s[6], s[7]];
    }
  }

  /** A device takes exactly the frames with a whole header to itself or to all, of which the
      driver delivers at most 1514 bytes. */
  lemma FrameAcceptedIff(address: Mac, wire: seq<u8>)
    ensures PollEther(address, wire).Some?
            <==> |wire| >= 14 && wire[..6] in {address, [0xff, 0xff, 0xff, 0xff, 0xff, 0xff]}
    ensures PollEther(address, wire).Some? ==>
              && PollEther(address, wire).value.kind == BigAt(wire, 12)
              && PollEther(address, wire).value.data == wire[14..if |wire| > 1514 then 1514 else |wire|]
  {
    if |wire| >= 14 {
      var frame := if |wire| > ETHER_FRAME_MAX then wire[..ETHER_FRAME_MAX] else wire;
      NetIsBig(frame, 12);
      assert frame[..6] == wire[..6];
    }
  }
}
