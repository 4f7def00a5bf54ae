/** From `udp_sendto` on one host to `udp_recvfrom` on another. */
module EndToEnd {
  import opened Options
  import opened Words
  import opened Wire
  import opened Routing
  import opened Stack
  import Udp = UdpMonitor
  import UdpRuns

  /** The packet in a datagram's frame, padding included, is parsed by the host it is
      addressed to back to the sender's endpoint and payload, and ignored by any other. */
  lemma PacketUnderstood(b: Host, now: Time, dev: nat, local: Udp.Endpoint, foreign: Udp.Endpoint,
                         data: seq<u8>, id: u16, pad: seq<u8>)
    requires HostOk(b) && dev < |b.devices| && b.devices[dev].ip.Some? && |data| <= MAX_IP_PAYLOAD - UDP_HEADER
    ensures var segment := UdpSegment(local.address, local.port, foreign.address, foreign.port, data);
            var packet := IpPacket(17, segment, id, local.address, foreign.address) + pad;
            var i := b.devices[dev].ip.value;
            var mine := foreign.address in {i.unicast, i.broadcast, 0xffff_ffff};
            IpInput(b, now, dev, packet) == Sent(if mine then Received(b, foreign, local, data) else b, [], true)
  {
    var segment := UdpSegment(local.address, local.port, foreign.address, foreign.port, data);
    UdpRoundTrip(local.address, local.port, foreign.address, foreign.port, data);
    IpRoundTrip(PROTO_UDP, segment, id, local.address, foreign.address, pad);
  }

  /** The host after its UDP layer has taken in a datagram. */
  function Received(b: Host, foreign: Udp.Endpoint, local: Udp.Endpoint, data: seq<u8>): Host
    requires Udp.Shape(b.udp)
  {
    b.(udp := Udp.Next(-1, b.udp, Udp.DoInput(foreign.address, foreign.port, Udp.Datagram(local, data))).0)
  }

  /** A datagram that leaves the sender as an IP frame and is accepted by a device has exactly
      one effect on a host that owns the destination address: its payload, byte for byte, with
      the sender's endpoint, is taken in by the UDP layer. On any other host it has none. */
  lemma DatagramDelivered(a: Host, now: Time, id: int, data: seq<u8>, foreign: Udp.Endpoint, o: Output,
                          b: Host, later: Time, dev: nat)
    requires HostOk(a) && HostOk(b) && dev < |b.devices| && b.devices[dev].ip.Some?
    requires o in SendTo(a, now, id, data, foreign).outputs && o.OnWire?
    requires var p := PollEther(b.devices[dev].address, o.frame); p.Some? && p.value.kind == TYPE_IP
    ensures var r := Udp.Next(-1, a.udp, Udp.DoSend(id, Reach(a, foreign.address))).1;
            var i := b.devices[dev].ip.value;
            var mine := foreign.address in {i.unicast, i.broadcast, 0xffff_ffff};
            && r.Sending?
            && ReceiveFrame(b, later, dev, o.frame)
               == Sent(if mine then Received(b, foreign, r.local, data) else b, [], true)
  {
    assert !Asks(o) by {
      if Asks(o) { RequestIsArp(o, b.devices[dev].address); }
    }
    SentPacket(a, now, id, data, foreign, o);
    var local := Udp.Next(-1, a.udp, Udp.DoSend(id, Reach(a, foreign.address))).1.local;
    var segment := UdpSegment(local.address, local.port, foreign.address, foreign.port, data);
    var packet := IpPacket(PROTO_UDP, segment, a.id, local.address, foreign.address);
    var via := a.routes[Lookup(a.routes, foreign.address)].dev;
    CarriedArrives(o, a.devices[via], via, packet, b.devices[dev].address);
    PacketUnderstood(b, later, dev, local, foreign, data, a.id, Padding(packet));
  }

  /** Hence it is appended to the queue of the lowest matching open slot and to no other
      (or dropped if none matches); and over any run that keeps the slot open, the receiver
      whose turn comes after those for what was queued before gets the sender's endpoint and
      the first bytes that fit its buffer, or the datagram is still queued. With nothing queued
      before, the next receiver gets it at once. */
  lemma SentIsReceived(a: Host, now: Time, id: int, data: seq<u8>, foreign: Udp.Endpoint, o: Output,
                       b: Host, later: Time, dev: nat, ops: seq<Udp.Op>, t: Udp.Tid, size: nat)
    requires HostOk(a) && HostOk(b) && Udp.Inv(b.udp) && dev < |b.devices| && b.devices[dev].ip.Some?
    requires o in SendTo(a, now, id, data, foreign).outputs && o.OnWire?
    requires var p := PollEther(b.devices[dev].address, o.frame); p.Some? && p.value.kind == TYPE_IP
    requires Addressed(b.devices[dev].ip.value, foreign.address)
    ensures var r := Udp.Next(-1, a.udp, Udp.DoSend(id, Reach(a, foreign.address))).1;
            var b' := ReceiveFrame(b, later, dev, o.frame).host;
            r.Sending? && TakenIn(b, b', foreign, Udp.Datagram(r.local, data), ops, t, size)
  {
    DatagramDelivered(a, now, id, data, foreign, o, b, later, dev);
    var r := Udp.Next(-1, a.udp, Udp.DoSend(id, Reach(a, foreign.address))).1;
    DatagramTakenIn(b, foreign, Udp.Datagram(r.local, data), ops, t, size);
  }

  /** The datagram went to the lowest match, behind what was queued, and is handed on. */
  ghost predicate TakenIn(b: Host, b': Host, foreign: Udp.Endpoint, d: Udp.Datagram, ops: seq<Udp.Op>,
                          t: Udp.Tid, size: nat)
    requires Udp.Shape(b.udp)
  {
    var i := Udp.Select(b.udp.pcbs, foreign.address, foreign.port);
    if i == Udp.PCB_SIZE then
      b' == b && forall j :: 0 <= j < Udp.PCB_SIZE ==> !Udp.Matches(b.udp.pcbs[j], foreign.address, foreign.port)
    else
      && UdpRuns.LowestMatch(b.udp.pcbs, foreign.address, foreign.port, i)
      && b'.udp.pcbs == UdpRuns.Enqueued(b.udp.pcbs, i, d) && Udp.Shape(b'.udp)
      && (b.udp.pcbs[i].queue == [] && t !in b.udp.threads ==>
            Udp.Next(-1, b'.udp, Udp.DoReceive(t, i, size)).1 == UdpRuns.Answer(d, size))
      && (UdpRuns.OpenThroughout(b'.udp, ops, i) ==> UdpRuns.HandedOn(b'.udp, ops, i, |b.udp.pcbs[i].queue|, d))
  }

  lemma DatagramTakenIn(b: Host, foreign: Udp.Endpoint, d: Udp.Datagram, ops: seq<Udp.Op>, t: Udp.Tid, size: nat)
    requires Udp.Inv(b.udp)
    ensures TakenIn(b, Received(b, foreign, d.foreign, d.data), foreign, d, ops, t, size)
  {
    var i := Udp.Select(b.udp.pcbs, foreign.address, foreign.port);
    var s' := Udp.Next(-1, b.udp, Udp.DoInput(foreign.address, foreign.port, d)).0;
    Udp.InputInv(b.udp, foreign.address, foreign.port, d);
    if i < Udp.PCB_SIZE && UdpRuns.OpenThroughout(s', ops, i) {
      UdpRuns.QueuedIsHandedOn(s', ops, i, |b.udp.pcbs[i].queue|);
    }
  }

  // ---------------------------------------------------------------- when a datagram gets through

  /** The source address `udp_sendto` picks. */
  function Source(h: Host, id: int, dst: u32): Option<u32>
    requires HostOk(h) && Udp.Gets(h.udp.pcbs, id)
  {
    var local := h.udp.pcbs[id].local.address;
    if local == Udp.ADDR_ANY then Reach(h, dst) else Some(local)
  }

  predicate Leaves(h: Host, now: Time, id: int, size: nat, dst: u32)
    requires HostOk(h)
  {
    && Udp.Gets(h.udp.pcbs, id) && Source(h, id, dst).Some?
    && Departs(h, now, UDP_HEADER + size, Source(h, id, dst).value, dst)
  }

  /** A datagram leaves its host exactly when the control block is open, a route and source
      address agree, it fits the device, the device is up, and the next hop is resolved. */
  lemma DatagramLeavesIff(h: Host, now: Time, id: int, data: seq<u8>, foreign: Udp.Endpoint)
    requires HostOk(h) && Udp.Inv(h.udp)
    ensures LeftIff(SendTo(h, now, id, data, foreign),
                    Leaves(h, now, id, |data|, foreign.address), Target(h, now, foreign.address))
  {
    var (udp, r) := Udp.Next(-1, h.udp, Udp.DoSend(id, Reach(h, foreign.address)));
    UdpRuns.SendFailsIff(h.udp, id, Reach(h, foreign.address));
    if r.Sending? && |data| <= MAX_IP_PAYLOAD - UDP_HEADER {
      var segment := UdpSegment(r.local.address, r.local.port, foreign.address, foreign.port, data);
      PacketLeavesIff(h.(udp := udp), now, PROTO_UDP, segment, r.local.address, foreign.address);
    }
  }

  /** A datagram sent now is the one frame that leaves and is delivered to the other host. */
  ghost predicate Arrives(a: Host, now: Time, id: int, data: seq<u8>, foreign: Udp.Endpoint,
                          b: Host, later: Time, dev: nat)
    requires HostOk(a) && HostOk(b) && dev < |b.devices|
  {
    var s := SendTo(a, now, id, data, foreign);
    var r := Udp.Next(-1, a.udp, Udp.DoSend(id, Reach(a, foreign.address))).1;
    && s.ok && |s.outputs| == 1 && s.outputs[0].OnWire? && r.Sending?
    && ReceiveFrame(b, later, dev, s.outputs[0].frame).host == Received(b, foreign, r.local, data)
  }

  /** End to end from conditions on the hosts alone: a datagram that leaves over Ethernet
      towards a device of a host that owns its destination arrives there. */
  lemma ResolvedDatagramArrives(a: Host, now: Time, id: int, data: seq<u8>, foreign: Udp.Endpoint,
                                b: Host, later: Time, dev: nat)
    requires HostOk(a) && Udp.Inv(a.udp) && Leaves(a, now, id, |data|, foreign.address)
    requires HostOk(b) && dev < |b.devices| && b.devices[dev].ip.Some?
    requires Addressed(b.devices[dev].ip.value, foreign.address)
    requires Target(a, now, foreign.address) in {Some(b.devices[dev].address), Some(MAC_BROADCAST)}
    ensures Arrives(a, now, id, data, foreign, b, later, dev)
  {
    DatagramLeavesIff(a, now, id, data, foreign);
    var target := Target(a, now, foreign.address);
    var o := TheOutput(SendTo(a, now, id, data, foreign), target);
    FrameTaken(o, target.value, b.devices[dev].address);
    SentPacketKind(a, now, id, data, foreign, o, b.devices[dev].address);
    DatagramDelivered(a, now, id, data, foreign, o, b, later, dev);
  }

  /** A device that takes a datagram's frame sees an IP packet. */
  lemma SentPacketKind(a: Host, now: Time, id: int, data: seq<u8>, foreign: Udp.Endpoint, o: Output, address: Mac)
    requires HostOk(a) && o in SendTo(a, now, id, data, foreign).outputs && !Asks(o)
    requires o.OnWire? && PollEther(address, o.frame).Some?
    ensures PollEther(address, o.frame).value.kind == TYPE_IP
  {
    SentPacket(a, now, id, data, foreign, o);
    var local := Udp.Next(-1, a.udp, Udp.DoSend(id, Reach(a, foreign.address))).1.local;
    var segment := UdpSegment(local.address, local.port, foreign.address, foreign.port, data);
    var via := a.routes[Lookup(a.routes, foreign.address)].dev;
    CarriedArrives(o, a.devices[via], via, IpPacket(PROTO_UDP, segment, a.id, local.address, foreign.address), address);
  }

  /** An ICMP message in a padded packet: addressed to this host, an echo request is answered to
      its sender from the interface's address, with its code, values and data; any other
      message, and any message for another host, has no effect. */
  lemma IcmpUnderstood(h: Host, now: Time, dev: nat, kind: u8, code: u8, values: u32, data: seq<u8>,
                       id: u16, src: u32, dst: u32, pad: seq<u8>)
    requires HostOk(h) && dev < |h.devices| && h.devices[dev].ip.Some? && |data| <= MAX_IP_PAYLOAD - ICMP_HEADER
    ensures var i := h.devices[dev].ip.value;
            IpInput(h, now, dev, IpPacket(1, IcmpMessage(kind, code, values, data), id, src, dst) + pad)
            == if kind == 8 && dst in {i.unicast, i.broadcast, 0xffff_ffff} then
                 SendPacket(h, now, 1, IcmpMessage(0, code, values, data), i.unicast, src)
               else Sent(h, [], true)
  {
    IcmpRoundTrip(kind, code, values, data);
    IpRoundTrip(PROTO_ICMP, IcmpMessage(kind, code, values, data), id, src, dst, pad);
  }

  /** An echo request is answered: whatever IP packet comes out, on the wire or looped back,
      is an echo reply from this interface to the requester with the request's code,
      identifier, sequence number and data. */
  lemma EchoAnswered(h: Host, now: Time, data: seq<u8>, src: u32, i: Iface, o: Output)
    requires HostOk(h)
    requires o in IcmpInput(h, now, data, src, i).outputs && !Asks(o)
    ensures var m := ParseIcmp(data);
            && m.Some? && m.value.kind == ECHO
            && exists dev: nat, packet: seq<u8> ::
                 && dev < |h.devices| && Carries(o, h.devices[dev], dev, packet)
                 && IsReply(packet, m.value, h.devices[dev].ip, src)
  {
    var m := ParseIcmp(data).value;
    var reply := IcmpMessage(ECHO_REPLY, m.code, m.values, m.data);
    OutputOfPacket(h, now, PROTO_ICMP, reply, i.unicast, src, o);
    var dev := h.routes[Lookup(h.routes, src)].dev;
    var from := h.devices[dev].ip.value.unicast;
    IcmpRoundTrip(ECHO_REPLY, m.code, m.values, m.data);
    var packet := IpPacket(PROTO_ICMP, reply, h.id, from, src);
    IpRoundTrip(PROTO_ICMP, reply, h.id, from, src, []);
    assert packet + [] == packet;
    assert IsReply(packet, m, h.devices[dev].ip, src);
  }

  /** And it is answered exactly when it is a valid echo request whose reply departs. */
  lemma EchoLeavesIff(h: Host, now: Time, data: seq<u8>, src: u32, i: Iface)
    requires HostOk(h)
    ensures var m := ParseIcmp(data);
            LeftIff(IcmpInput(h, now, data, src, i),
                    m.Some? && m.value.kind == ECHO && Departs(h, now, |data|, i.unicast, src), Target(h, now, src))
  {
    var m := ParseIcmp(data);
    if m.Some? && m.value.kind == ECHO {
      var reply := IcmpMessage(ECHO_REPLY, m.value.code, m.value.values, m.value.data);
      PacketLeavesIff(h, now, PROTO_ICMP, reply, i.unicast, src);
    }
  }

  /** The packet is the reply to the request `m` from `dst`. */
  predicate IsReply(packet: seq<u8>, m: IcmpIn, ip: Option<Iface>, dst: u32) {
    var p := ParseIp(packet);
    && ip.Some? && p.Payload? && p.proto == PROTO_ICMP && p.src == ip.value.unicast && p.dst == dst
    && ParseIcmp(p.data) == Some(m.(kind := ECHO_REPLY))
  }
}
