/** Address resolution between two hosts: the first datagram to an unresolved neighbour is
    replaced by an ARP request, and after the answer the next one gets through. */
module Handshake {
  import opened Options
  import opened Words
  import opened Wire
  import opened Routing
  import opened Stack
  import opened EndToEnd
  import Arp = ArpCache
  import Udp = UdpMonitor
  import UdpRuns

  /** A message to this host is what the cache answers with next, whatever it held before. */
  lemma HeardIsFound(c: seq<Arp.Entry>, now: Time, m: Arp.Message, later: Time)
    requires |c| == Arp.CACHE_SIZE
    ensures var s := Arp.Next(Arp.Next(Arp.State(c, None), Arp.FirstHalf(now, m, true)), Arp.SecondHalf(now));
            Arp.Resolve(s.cache, later, m.spa).1 == Arp.Found(m.sha)
  {
    var i := Arp.Select(c, m.spa);
    var s := Arp.Next(Arp.Next(Arp.State(c, None), Arp.FirstHalf(now, m, true)), Arp.SecondHalf(now));
    var at := if i < |c| then i else Arp.Alloc(c);
    assert s.cache == c[at := Arp.Entry(Arp.Resolved, m.spa, m.sha, now)];
    assert Arp.Live(s.cache[at], m.spa);
    assert forall j :: 0 <= j < at ==> !Arp.Live(s.cache[j], m.spa);
  }

  /** An up Ethernet device with an address. */
  predicate OnLink(h: Host, dev: nat) {
    dev < |h.devices| && h.devices[dev].kind == Ethernet && h.devices[dev].up && h.devices[dev].ip.Some?
  }

  function Request(d: Device, pa: u32): seq<u8>
    requires d.ip.Some?
  {
    EtherFrame(MAC_BROADCAST, d.address, TYPE_ARP,
               ArpPacket(ARP_REQUEST, d.address, d.ip.value.unicast, Arp.MAC_ZERO, pa))
  }

  function Reply(d: Device, ha: Mac, pa: u32): seq<u8>
    requires d.ip.Some?
  {
    EtherFrame(ha, d.address, TYPE_ARP, ArpPacket(ARP_REPLY, d.address, d.ip.value.unicast, ha, pa))
  }

  /** A frame with an ARP packet for this device is handled as that ARP message. */
  lemma ArpFrame(h: Host, now: Time, dev: nat, dst: Mac, op: u16, sha: Mac, spa: u32, tha: Mac, tpa: u32)
      returns (data: seq<u8>)
    requires HostOk(h) && dev < |h.devices| && (dst == h.devices[dev].address || dst == MAC_BROADCAST)
    ensures ReceiveFrame(h, now, dev, EtherFrame(dst, sha, 0x0806, ArpPacket(op, sha, spa, tha, tpa)))
            == ArpInput(h, now, dev, data)
    ensures ParseArp(data) == Some(Arp.Message(sha, spa, tpa, op == ARP_REQUEST))
  {
    var packet := ArpPacket(op, sha, spa, tha, tpa);
    data := packet + Padding(packet);
    EtherRoundTrip(dst, sha, TYPE_ARP, packet, h.devices[dev].address);
    ArpRoundTrip(op, sha, spa, tha, tpa, Padding(packet));
  }

  /** A message to this host is answered exactly if it is a request, to the sender alone, and
      the sender's address is learnt. */
  lemma ArpTaken(b: Host, now: Time, dev: nat, data: seq<u8>, m: Arp.Message, later: Time)
    requires HostOk(b) && OnLink(b, dev) && ParseArp(data) == Some(m) && m.tpa == b.devices[dev].ip.value.unicast
    ensures var s := ArpInput(b, now, dev, data);
            && s.outputs == (if m.request then [OnWire(dev, Reply(b.devices[dev], m.sha, m.spa))] else [])
            && s.host == b.(arp := s.host.arp) && |s.host.arp| == |b.arp|
            && Arp.Resolve(s.host.arp, later, m.spa).1 == Arp.Found(m.sha)
  {
    HeardIsFound(b.arp, now, m, later);
  }

  /** The owner of the requested address answers, and has learnt the requester's address. */
  lemma RequestAnswered(b: Host, now: Time, dev: nat, d: Device, later: Time)
    requires HostOk(b) && OnLink(b, dev) && d.ip.Some?
    ensures var s := ReceiveFrame(b, now, dev, Request(d, b.devices[dev].ip.value.unicast));
            && s.outputs == [OnWire(dev, Reply(b.devices[dev], d.address, d.ip.value.unicast))]
            && s.host == b.(arp := s.host.arp) && |s.host.arp| == |b.arp|
            && Arp.Resolve(s.host.arp, later, d.ip.value.unicast).1 == Arp.Found(d.address)
  {
    var spa, tpa := d.ip.value.unicast, b.devices[dev].ip.value.unicast;
    var data := ArpFrame(b, now, dev, MAC_BROADCAST, ARP_REQUEST, d.address, spa, Arp.MAC_ZERO, tpa);
    ArpTaken(b, now, dev, data, Arp.Message(d.address, spa, tpa, true), later);
  }

  /** Any other host stays silent. */
  lemma OthersAreSilent(b: Host, now: Time, dev: nat, d: Device, pa: u32)
    requires HostOk(b) && OnLink(b, dev) && d.ip.Some? && b.devices[dev].ip.value.unicast != pa
    ensures ReceiveFrame(b, now, dev, Request(d, pa)).outputs == []
  {
    var data := ArpFrame(b, now, dev, MAC_BROADCAST, ARP_REQUEST, d.address, d.ip.value.unicast, Arp.MAC_ZERO, pa);
  }

  /** The answer resolves the neighbour. */
  lemma ReplyHeard(a: Host, now: Time, dev: nat, d: Device, later: Time)
    requires HostOk(a) && OnLink(a, dev) && d.ip.Some?
    ensures var s := ReceiveFrame(a, now, dev, Reply(d, a.devices[dev].address, a.devices[dev].ip.value.unicast));
            && s.outputs == [] && s.host == a.(arp := s.host.arp) && |s.host.arp| == |a.arp|
            && Arp.Resolve(s.host.arp, later, d.ip.value.unicast).1 == Arp.Found(d.address)
  {
    var me, tpa, spa := a.devices[dev].address, a.devices[dev].ip.value.unicast, d.ip.value.unicast;
    var data := ArpFrame(a, now, dev, me, ARP_REPLY, d.address, spa, me, tpa);
    ArpTaken(a, now, dev, data, Arp.Message(d.address, spa, tpa, false), later);
  }

  // ---------------------------------------------------------------- first attempt and retry

  /** The control block is open, its source address and route agree, and the datagram fits. */
  predicate Routed(h: Host, id: int, size: nat, dst: u32)
    requires HostOk(h)
  {
    && Udp.Gets(h.udp.pcbs, id) && Source(h, id, dst).Some?
    && Sendable(h, UDP_HEADER + size, Source(h, id, dst).value, dst)
  }

  /** The destination is a neighbour reached directly over an Ethernet device. */
  predicate Neighbour(h: Host, dst: u32)
    requires HostOk(h)
  {
    var k := Lookup(h.routes, dst);
    && k < |h.routes| && OnLink(h, h.routes[k].dev) && NextHop(h.routes[k], dst) == dst
    && dst != ADDR_BROADCAST && dst != h.devices[h.routes[k].dev].ip.value.broadcast
  }

  /** The next hop is not a broadcast address and ARP has no answer for it. */
  predicate Unresolved(d: Device, arp: seq<Arp.Entry>, now: Time, nexthop: u32)
    requires d.ip.Some? && arp != []
  {
    && d.kind == Ethernet && nexthop != ADDR_BROADCAST && nexthop != d.ip.value.broadcast
    && Arp.Resolve(arp, now, nexthop).1.Pending?
  }

  /** The route to a destination has an unresolved next hop. */
  predicate HopUnresolved(h: Host, now: Time, dst: u32)
    requires HostOk(h)
  {
    var k := Lookup(h.routes, dst);
    k < |h.routes| && Unresolved(h.devices[h.routes[k].dev], h.arp, now, NextHop(h.routes[k], dst))
  }

  /** What leaves a device towards an unresolved next hop: a request if the device is up. */
  function Asking(d: Device, dev: nat, nexthop: u32): seq<Output>
    requires d.ip.Some?
  {
    if d.up then [OnWire(dev, Request(d, nexthop))] else []
  }

  lemma UnresolvedDevice(h: Host, now: Time, dev: nat, packet: seq<u8>, nexthop: u32)
    requires HostOk(h) && dev < |h.devices| && h.devices[dev].ip.Some? && |packet| <= h.devices[dev].mtu
    ensures var s, d := OutputDevice(h, now, dev, packet, nexthop), h.devices[dev];
            && (s.ok && !Ready(d, h.arp, now, nexthop) <==> Unresolved(d, h.arp, now, nexthop))
            && (Unresolved(d, h.arp, now, nexthop) ==> s.outputs == Asking(d, dev, nexthop))
  {
  }

  lemma UnresolvedRouted(h: Host, now: Time, packet: seq<u8>, r: Route, dst: u32)
    requires HostOk(h) && r in h.routes && |packet| <= h.devices[r.dev].mtu
    ensures var s, d, hop := SendRouted(h, now, packet, r, dst), h.devices[r.dev], NextHop(r, dst);
            && (s.ok && !Ready(d, h.arp, now, hop) <==> Unresolved(d, h.arp, now, hop))
            && (Unresolved(d, h.arp, now, hop) ==> s.outputs == Asking(d, r.dev, hop))
  {
    UnresolvedDevice(h.(id := (h.id + 1) % 0x1_0000), now, r.dev, packet, NextHop(r, dst));
  }

  lemma UnresolvedPacket(h: Host, now: Time, proto: u8, data: seq<u8>, src: u32, dst: u32)
    requires HostOk(h)
    ensures var s := SendPacket(h, now, proto, data, src, dst);
            && (s.ok && !Departs(h, now, |data|, src, dst)
                <==> Sendable(h, |data|, src, dst) && HopUnresolved(h, now, dst))
            && (Sendable(h, |data|, src, dst) && HopUnresolved(h, now, dst) ==>
                  var r := h.routes[Lookup(h.routes, dst)];
                  s.outputs == Asking(h.devices[r.dev], r.dev, NextHop(r, dst)))
  {
    if Sendable(h, |data|, src, dst) {
      var r := h.routes[Lookup(h.routes, dst)];
      var packet := IpPacket(proto, data, h.id, h.devices[r.dev].ip.value.unicast, dst);
      UnresolvedRouted(h, now, packet, r, dst);
      assert SendPacket(h, now, proto, data, src, dst) == SendRouted(h, now, packet, r, dst);
    }
  }

  /** A datagram that does not leave is reported as sent exactly when it is routed to an
      unresolved next hop, gateway or neighbour, the device being up or down. */
  lemma ReportedNotSentIff(h: Host, now: Time, id: int, data: seq<u8>, foreign: Udp.Endpoint)
    requires HostOk(h) && Udp.Inv(h.udp)
    ensures SendTo(h, now, id, data, foreign).ok && !Leaves(h, now, id, |data|, foreign.address)
            <==> Routed(h, id, |data|, foreign.address) && HopUnresolved(h, now, foreign.address)
  {
    var (udp, sending) := Udp.Next(-1, h.udp, Udp.DoSend(id, Reach(h, foreign.address)));
    UdpRuns.SendFailsIff(h.udp, id, Reach(h, foreign.address));
    if sending.Sending? && |data| <= MAX_IP_PAYLOAD - UDP_HEADER {
      var segment := UdpSegment(sending.local.address, sending.local.port, foreign.address, foreign.port, data);
      UnresolvedPacket(h.(udp := udp), now, PROTO_UDP, segment, sending.local.address, foreign.address);
    }
  }

  /** In that case exactly one ARP request for the next hop leaves instead, or nothing if the
      device is down. */
  lemma FirstAttempt(h: Host, now: Time, id: int, data: seq<u8>, foreign: Udp.Endpoint)
    requires HostOk(h) && Udp.Inv(h.udp) && Routed(h, id, |data|, foreign.address)
    requires HopUnresolved(h, now, foreign.address)
    ensures var s := SendTo(h, now, id, data, foreign);
            var r := h.routes[Lookup(h.routes, foreign.address)];
            && s.ok && s.outputs == Asking(h.devices[r.dev], r.dev, NextHop(r, foreign.address))
            && s.host.udp == Udp.Next(-1, h.udp, Udp.DoSend(id, Reach(h, foreign.address))).0
  {
    UdpRuns.SendFailsIff(h.udp, id, Reach(h, foreign.address));
    var (udp, sending) := Udp.Next(-1, h.udp, Udp.DoSend(id, Reach(h, foreign.address)));
    var segment := UdpSegment(sending.local.address, sending.local.port, foreign.address, foreign.port, data);
    UnresolvedPacket(h.(udp := udp), now, PROTO_UDP, segment, sending.local.address, foreign.address);
  }

  // ---------------------------------------------------------------- the next hop

  /** `hop` is the gateway of the route, or the destination itself if the route has none. */
  predicate IsHop(r: Route, dst: u32, hop: u32) {
    hop == if r.nexthop == 0 then dst else r.nexthop
  }

  /** The hop of the route, and no other address, decides where a packet goes: framed to the
      hardware address found for it, or to all for a broadcast hop, or replaced by a request
      for it; the packet itself names the destination. */
  lemma SentToHop(h: Host, now: Time, proto: u8, data: seq<u8>, src: u32, dst: u32, hop: u32)
    requires HostOk(h) && Sendable(h, |data|, src, dst)
    requires var r := h.routes[Lookup(h.routes, dst)]; OnLink(h, r.dev) && IsHop(r, dst, hop)
    ensures var s := SendPacket(h, now, proto, data, src, dst);
            var dev := h.routes[Lookup(h.routes, dst)].dev;
            var d := h.devices[dev];
            var packet := IpPacket(proto, data, h.id, d.ip.value.unicast, dst);
            var answer := Arp.Resolve(h.arp, now, hop).1;
            && s.ok
            && s.outputs ==
                 if hop == d.ip.value.broadcast || hop == 0xffff_ffff then
                   [OnWire(dev, EtherFrame(MAC_BROADCAST, d.address, TYPE_IP, packet))]
                 else if answer.Found? then [OnWire(dev, EtherFrame(answer.ha, d.address, TYPE_IP, packet))]
                 else [OnWire(dev, Request(d, hop))]
  {
    var r := h.routes[Lookup(h.routes, dst)];
    var packet := IpPacket(proto, data, h.id, h.devices[r.dev].ip.value.unicast, dst);
    RoutedToHop(h, now, packet, r, dst, hop);
    assert SendPacket(h, now, proto, data, src, dst) == SendRouted(h, now, packet, r, dst);
  }

  lemma RoutedToHop(h: Host, now: Time, packet: seq<u8>, r: Route, dst: u32, hop: u32)
    requires HostOk(h) && r in h.routes && |packet| <= h.devices[r.dev].mtu && OnLink(h, r.dev) && IsHop(r, dst, hop)
    ensures var s, d := SendRouted(h, now, packet, r, dst), h.devices[r.dev];
            var answer := Arp.Resolve(h.arp, now, hop).1;
            && s.ok
            && s.outputs ==
                 if hop == d.ip.value.broadcast || hop == 0xffff_ffff then
                   [OnWire(r.dev, EtherFrame(MAC_BROADCAST, d.address, TYPE_IP, packet))]
                 else if answer.Found? then [OnWire(r.dev, EtherFrame(answer.ha, d.address, TYPE_IP, packet))]
                 else [OnWire(r.dev, Request(d, hop))]
  {
  }

  /** What sending leaves behind: the identifier counter moves on by one, modulo 65536, for every
      packet that is not refused; the cache is as `arp_resolve` for the hop leaves it, where it
      is consulted; nothing else changes. */
  lemma SendEffects(h: Host, now: Time, proto: u8, data: seq<u8>, src: u32, dst: u32, hop: u32)
    requires HostOk(h)
    requires Sendable(h, |data|, src, dst) ==> IsHop(h.routes[Lookup(h.routes, dst)], dst, hop)
    ensures var h' := SendPacket(h, now, proto, data, src, dst).host;
            if !Sendable(h, |data|, src, dst) then h' == h
            else
              var d := h.devices[h.routes[Lookup(h.routes, dst)].dev];
              var asks := d.kind == Ethernet && hop != d.ip.value.broadcast && hop != 0xffff_ffff;
              && h'.id == (if h.id == 0xffff then 0 else h.id + 1)
              && h'.arp == (if asks then Arp.Resolve(h.arp, now, hop).0 else h.arp)
              && h'.devices == h.devices && h'.routes == h.routes && h'.udp == h.udp
  {
    if Sendable(h, |data|, src, dst) {
      var r := h.routes[Lookup(h.routes, dst)];
      var packet := IpPacket(proto, data, h.id, h.devices[r.dev].ip.value.unicast, dst);
      RoutedEffects(h, now, packet, r, dst, hop);
      assert SendPacket(h, now, proto, data, src, dst) == SendRouted(h, now, packet, r, dst);
    }
  }

  lemma RoutedEffects(h: Host, now: Time, packet: seq<u8>, r: Route, dst: u32, hop: u32)
    requires HostOk(h) && r in h.routes && IsHop(r, dst, hop)
    ensures var h', d := SendRouted(h, now, packet, r, dst).host, h.devices[r.dev];
            var asks := d.kind == Ethernet && hop != d.ip.value.broadcast && hop != 0xffff_ffff;
            && h'.id == (if h.id == 0xffff then 0 else h.id + 1)
            && h'.arp == (if asks then Arp.Resolve(h.arp, now, hop).0 else h.arp)
            && h'.devices == h.devices && h'.routes == h.routes && h'.udp == h.udp
  {
  }

  /** A resolved neighbour is reached. */
  lemma ResolvedLeaves(h: Host, now: Time, id: int, size: nat, dst: u32, ha: Mac)
    requires HostOk(h) && Routed(h, id, size, dst) && Neighbour(h, dst)
    requires Arp.Resolve(h.arp, now, dst).1 == Arp.Found(ha)
    ensures Leaves(h, now, id, size, dst) && Target(h, now, dst) == Some(ha)
  {
  }

  lemma KeepsAddress(s: Udp.State, id: int, reach: Option<u32>)
    requires Udp.Shape(s) && Udp.Gets(s.pcbs, id)
    ensures var s' := Udp.Next(-1, s, Udp.DoSend(id, reach)).0;
            Udp.Gets(s'.pcbs, id) && s'.pcbs[id].local.address == s.pcbs[id].local.address
  {
  }

  /** Sending and receiving ARP messages leaves a sender routed. */
  lemma StillRouted(h: Host, h': Host, id: int, size: nat, dst: u32)
    requires HostOk(h) && Udp.Inv(h.udp) && Routed(h, id, size, dst) && Neighbour(h, dst)
    requires h'.devices == h.devices && h'.routes == h.routes && |h'.arp| == |h.arp|
    requires h'.udp == Udp.Next(-1, h.udp, Udp.DoSend(id, Reach(h, dst))).0
    ensures HostOk(h') && Udp.Inv(h'.udp) && Routed(h', id, size, dst) && Neighbour(h', dst)
  {
    Udp.SendInv(h.udp, id, Reach(h, dst));
    KeepsAddress(h.udp, id, Reach(h, dst));
  }

  /** `b` handles the one frame that left at t(1), and the sender handles the one frame of the
      answer at t(2). */
  ghost predicate Exchanged(asked: Sent, b: Host, dev: nat, t: nat -> Time, a': Host, b': Host)
    requires HostOk(b) && dev < |b.devices|
  {
    && |asked.outputs| == 1 && asked.outputs[0].OnWire? && HostOk(asked.host)
    && var answered := ReceiveFrame(b, t(1), dev, asked.outputs[0].frame);
       && |answered.outputs| == 1 && answered.outputs[0].OnWire? && b' == answered.host
       && var via := asked.outputs[0].dev;
          via < |asked.host.devices| && a' == ReceiveFrame(asked.host, t(2), via, answered.outputs[0].frame).host
  }

  /** The answer to a request is heard. */
  lemma Exchange(asked: Sent, via: nat, b: Host, dev: nat, t: nat -> Time) returns (a': Host, b': Host)
    requires HostOk(asked.host) && OnLink(asked.host, via) && HostOk(b) && OnLink(b, dev)
    requires asked.outputs == [OnWire(via, Request(asked.host.devices[via], b.devices[dev].ip.value.unicast))]
    ensures Exchanged(asked, b, dev, t, a', b') && HostOk(b') && b' == b.(arp := b'.arp)
    ensures a' == asked.host.(arp := a'.arp) && |a'.arp| == |asked.host.arp|
    ensures Arp.Resolve(a'.arp, t(3), b.devices[dev].ip.value.unicast).1 == Arp.Found(b.devices[dev].address)
  {
    RequestAnswered(b, t(1), dev, asked.host.devices[via], t(1));
    var answered := ReceiveFrame(b, t(1), dev, asked.outputs[0].frame);
    ReplyHeard(asked.host, t(2), via, b.devices[dev], t(3));
    b' := answered.host;
    a' := ReceiveFrame(asked.host, t(2), via, answered.outputs[0].frame).host;
  }

  /** The first datagram to an unresolved neighbour turns into a request, the answer to it is
      heard, and the next datagram is delivered. */
  lemma RetryArrives(a: Host, id: int, first: seq<u8>, data: seq<u8>, foreign: Udp.Endpoint,
                     b: Host, dev: nat, t: nat -> Time)
      returns (a': Host, b': Host)
    requires HostOk(a) && Udp.Inv(a.udp) && Neighbour(a, foreign.address)
    requires Routed(a, id, |first|, foreign.address) && Routed(a, id, |data|, foreign.address)
    requires Arp.Resolve(a.arp, t(0), foreign.address).1.Pending?
    requires HostOk(b) && OnLink(b, dev) && b.devices[dev].ip.value.unicast == foreign.address
    ensures Exchanged(SendTo(a, t(0), id, first, foreign), b, dev, t, a', b')
    ensures HostOk(a') && HostOk(b') && b'.devices == b.devices && Arrives(a', t(3), id, data, foreign, b', t(4), dev)
  {
    FirstAttempt(a, t(0), id, first, foreign);
    a', b' := Exchange(SendTo(a, t(0), id, first, foreign), a.routes[Lookup(a.routes, foreign.address)].dev, b, dev, t);
    StillRouted(a, a', id, |data|, foreign.address);
    ResolvedLeaves(a', t(3), id, |data|, foreign.address, b.devices[dev].address);
    ResolvedDatagramArrives(a', t(3), id, data, foreign, b', t(4), dev);
  }
}
