/** What the stack does in the situations it is built for: a gateway, a broadcast, a ping. */
module Scenarios {
  import opened Options
  import opened Words
  import opened Wire
  import opened Routing
  import opened Stack
  import opened EndToEnd
  import opened Handshake
  import Arp = ArpCache
  import Udp = UdpMonitor

  /** The host has one interface configured on device `dev`, and then a default gateway. */
  predicate Configured(h: Host, dev: nat, unicast: u32, netmask: u32, gateway: u32)
    requires HostOk(h)
  {
    && OnLink(h, dev) && h.devices[dev].ip == Some(MakeIface(unicast, netmask)) && netmask != 0 && gateway != 0
    && h.routes == [DefaultRoute(gateway, dev), SubnetRoute(MakeIface(unicast, netmask), dev)]
  }

  /** On a configured host a packet to an address of the subnet is framed to that neighbour, and
      a packet to any other address to the gateway, once ARP has found them; until then the one
      frame that leaves asks for the neighbour, or for the gateway. */
  lemma ThroughGateway(h: Host, now: Time, proto: u8, data: seq<u8>, dst: u32, dev: nat,
                       unicast: u32, netmask: u32, gateway: u32)
    requires HostOk(h) && Configured(h, dev, unicast, netmask, gateway)
    requires 20 + |data| <= 1500
    requires var b := MakeIface(unicast, netmask).broadcast; gateway != b && dst != b
    requires gateway != ADDR_BROADCAST && dst != ADDR_BROADCAST
    ensures var hop := if SameUnderMask(dst, netmask, unicast) then dst else gateway;
            var d := h.devices[dev];
            var answer := Arp.Resolve(h.arp, now, hop).1;
            var s := SendPacket(h, now, proto, data, unicast, dst);
            s.ok && s.outputs ==
              if answer.Found? then
                [OnWire(dev, EtherFrame(answer.ha, d.address, TYPE_IP, IpPacket(proto, data, h.id, unicast, dst)))]
              else [OnWire(dev, Request(d, hop))]
  {
    GatewayRoutes(unicast, netmask, dev, gateway, dst);
    var hop := if SameUnderMask(dst, netmask, unicast) then dst else gateway;
    SentToHop(h, now, proto, data, unicast, dst, hop);
  }

  /** A datagram to the broadcast address of the sender's subnet arrives at every host with an
      interface in that subnet. */
  lemma BroadcastArrives(a: Host, now: Time, id: int, data: seq<u8>, foreign: Udp.Endpoint,
                         b: Host, later: Time, dev: nat, unicast: u32, unicast': u32, netmask: u32)
    requires HostOk(a) && Udp.Inv(a.udp) && Routed(a, id, |data|, foreign.address)
    requires var r := a.routes[Lookup(a.routes, foreign.address)];
             OnLink(a, r.dev) && r.nexthop == 0 && a.devices[r.dev].ip == Some(MakeIface(unicast, netmask))
    requires foreign.address == MakeIface(unicast, netmask).broadcast
    requires HostOk(b) && dev < |b.devices| && b.devices[dev].ip == Some(MakeIface(unicast', netmask))
    requires SameUnderMask(unicast, netmask, unicast')
    ensures Arrives(a, now, id, data, foreign, b, later, dev)
  {
    SubnetBroadcast(unicast, unicast', netmask);
    ResolvedDatagramArrives(a, now, id, data, foreign, b, later, dev);
  }

  /** A ping by frame is answered by a frame: to the hardware address of the requester, or of the
      gateway towards it, with an echo reply from the address of the interface used. */
  lemma PingAnswered(h: Host, now: Time, dev: nat, hw: Mac, peer: Mac, code: u8, values: u32, data: seq<u8>,
                     id: u16, src: u32, dst: u32, hop: u32, ha: Mac)
    requires HostOk(h) && dev < |h.devices| && h.devices[dev].ip.Some? && hw in {h.devices[dev].address, MAC_BROADCAST}
    requires var i := h.devices[dev].ip.value;
             && dst in {i.unicast, i.broadcast, ADDR_BROADCAST}
             && Sendable(h, ICMP_HEADER + |data|, i.unicast, src)
    requires var r := h.routes[Lookup(h.routes, src)];
             OnLink(h, r.dev) && IsHop(r, src, hop) && hop != h.devices[r.dev].ip.value.broadcast
    requires hop != ADDR_BROADCAST && Arp.Resolve(h.arp, now, hop).1 == Arp.Found(ha)
    requires IP_HEADER + ICMP_HEADER + |data| <= ETHER_PAYLOAD_MAX
    ensures var ping := IpPacket(PROTO_ICMP, IcmpMessage(ECHO, code, values, data), id, src, dst);
            var out := h.routes[Lookup(h.routes, src)].dev;
            var reply := IcmpMessage(ECHO_REPLY, code, values, data);
            var packet := IpPacket(PROTO_ICMP, reply, h.id, h.devices[out].ip.value.unicast, src);
            ReceiveFrame(h, now, dev, EtherFrame(hw, peer, TYPE_IP, ping)).outputs
            == [OnWire(out, EtherFrame(ha, h.devices[out].address, TYPE_IP, packet))]
  {
    var ping := IpPacket(PROTO_ICMP, IcmpMessage(ECHO, code, values, data), id, src, dst);
    EtherRoundTrip(hw, peer, TYPE_IP, ping, h.devices[dev].address);
    IcmpUnderstood(h, now, dev, ECHO, code, values, data, id, src, dst, Padding(ping));
    var reply := IcmpMessage(ECHO_REPLY, code, values, data);
    SentToHop(h, now, PROTO_ICMP, reply, h.devices[dev].ip.value.unicast, src, hop);
  }
}
