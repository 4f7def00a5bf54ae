/** Headers filled in place, as the output functions of src/lib/udp.c, src/lib/ip.c,
    src/lib/icmp.c and src/lib/ether.c fill their buffers. Each method leaves in its buffer
    exactly the bytes `Wire` specifies. */
module Buffers {
  import opened Words
  import opened Checksum
  import opened ArpCache
  import opened Wire

  /** Writes the next bytes of a buffer whose first `|done|` bytes are filled; the bytes
      after them stay as they were. Every header field and `memcpy` is such a write. */
  method Append(buf: array<u8>, ghost done: seq<u8>, k: nat, s: seq<u8>)
    requires k == |done| && k + |s| <= buf.Length && buf[..k] == done
    modifies buf
    ensures buf[..k + |s|] == done + s
    ensures forall j :: k + |s| <= j < buf.Length ==> buf[j] == old(buf[j])
  {
    for i := 0 to |s|
      invariant buf[..k + i] == done + s[..i]
      invariant forall j :: k + i <= j < buf.Length ==> buf[j] == old(buf[j])
    {
      buf[k + i] := s[i];
    }
  }

  /** Overwrites the checksum field of a filled buffer. */
  method StoreSum(buf: array<u8>, k: nat, w: u16)
    requires k + 2 <= buf.Length
    modifies buf
    ensures buf[..] == Put16(Little, old(buf[..]), k, w)
  {
    buf[k] := R16(w)[0];
    buf[k + 1] := R16(w)[1];
  }

  /** The checksum of a whole buffer. */
  method SumOf(buf: array<u8>, init: u16) returns (sum: u16)
    requires buf.Length <= 0xffff
    ensures sum == Cksum(Little, buf[..], init)
  {
    sum := Cksum16(Little, buf[..], buf.Length, init);
    assert buf[..][..buf.Length] == buf[..];
  }

  /** The seed from the pseudo header. */
  method SeedOf(src: u32, dst: u32, len: u16) returns (psum: u16)
    ensures psum == PseudoSum(src, dst, len)
  {
    var pseudo := PseudoHeader(src, dst, len);
    psum := Cksum16(Little, pseudo, 12, 0);
    assert pseudo[..12] == pseudo;
    psum := 0xffff - psum;
  }

  /** The buffer of `udp_output`. */
  method FillUdp(src: u32, sport: u16, dst: u32, dport: u16, data: seq<u8>) returns (buf: array<u8>)
    requires |data| <= MAX_IP_PAYLOAD - UDP_HEADER
    ensures fresh(buf) && buf[..] == UdpSegment(src, sport, dst, dport, data)
  {
    var total := UDP_HEADER + |data|;
    buf := new u8[total](_ => 0);
    Append(buf, [], 0, R16(sport));
    Append(buf, R16(sport), 2, R16(dport));
    Append(buf, R16(sport) + R16(dport), 4, N16(total));
    Append(buf, R16(sport) + R16(dport) + N16(total), 6, [0, 0]);
    Append(buf, R16(sport) + R16(dport) + N16(total) + [0, 0], 8, data);
    assert buf[..] == buf[..total];
    var psum := SeedOf(src, dst, total);
    var sum := SumOf(buf, psum);
    StoreSum(buf, 6, sum);
  }

  /** The header part of the buffer of `ip_output_core`. */
  method FillIpHeader(proto: u8, total: u16, id: u16, src: u32, dst: u32) returns (hdr: array<u8>)
    ensures fresh(hdr) && hdr[..] == IpHeader(proto, total, id, src, dst)
  {
    hdr := new u8[IP_HEADER](_ => 0);
    ghost var d1 := [0x45, 0] + N16(total) + N16(id);
    ghost var d2 := d1 + N16(0) + [0xff, proto];
    Append(hdr, [], 0, [0x45, 0]);
    Append(hdr, [0x45, 0], 2, N16(total));
    Append(hdr, [0x45, 0] + N16(total), 4, N16(id));
    Append(hdr, d1, 6, N16(0));
    Append(hdr, d1 + N16(0), 8, [0xff, proto]);
    Append(hdr, d2, 10, [0, 0]);
    Append(hdr, d2 + [0, 0], 12, Store32(src));
    Append(hdr, d2 + [0, 0] + Store32(src), 16, Store32(dst));
    assert hdr[..] == hdr[..IP_HEADER];
    var sum := SumOf(hdr, 0);
    StoreSum(hdr, 10, sum);
  }

  /** The buffer of `ip_output_core`. */
  method FillIp(proto: u8, data: seq<u8>, id: u16, src: u32, dst: u32) returns (buf: array<u8>)
    requires |data| <= MAX_IP_PAYLOAD
    ensures fresh(buf) && buf[..] == IpPacket(proto, data, id, src, dst)
  {
    var hdr := FillIpHeader(proto, IP_HEADER + |data|, id, src, dst);
    buf := new u8[IP_HEADER + |data|](_ => 0);
    Append(buf, [], 0, hdr[..]);
    Append(buf, hdr[..], IP_HEADER, data);
    assert buf[..] == buf[..IP_HEADER + |data|];
  }

  /** The frame of `ether_transmit_helper`: the buffer starts out zeroed, so the padding is
      what the copy leaves untouched. */
  method FillEther(dst: Mac, src: Mac, kind: u16, data: seq<u8>) returns (frame: array<u8>)
    requires |data| <= ETHER_PAYLOAD_MAX
    ensures fresh(frame) && frame[..] == EtherFrame(dst, src, kind, data)
  {
    var pad := if |data| < ETHER_PAYLOAD_MIN then ETHER_PAYLOAD_MIN - |data| else 0;
    var n := ETHER_HEADER + |data|;
    frame := new u8[n + pad](_ => 0);
    Append(frame, [], 0, dst);
    Append(frame, dst, 6, src);
    Append(frame, dst + src, 12, N16(kind));
    Append(frame, dst + src + N16(kind), ETHER_HEADER, data);
    assert frame[n..] == Padding(data);
    assert frame[..] == frame[..n] + frame[n..];
  }

  /** The buffer of `icmp_output`. */
  method FillIcmp(kind: u8, code: u8, values: u32, data: seq<u8>) returns (buf: array<u8>)
    requires |data| <= MAX_IP_PAYLOAD - ICMP_HEADER
    ensures fresh(buf) && buf[..] == IcmpMessage(kind, code, values, data)
  {
    var total := ICMP_HEADER + |data|;
    buf := new u8[total](_ => 0);
    Append(buf, [], 0, [kind, code]);
    Append(buf, [kind, code], 2, [0, 0]);
    Append(buf, [kind, code] + [0, 0], 4, Store32(values));
    Append(buf, [kind, code] + [0, 0] + Store32(values), 8, data);
    assert buf[..] == buf[..total];
    var sum := SumOf(buf, 0);
    StoreSum(buf, 2, sum);
  }
}
