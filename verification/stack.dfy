/** One host: devices, routes, the ARP cache and the UDP table, with the output path
    (`udp_sendto`, `udp_output`, `ip_send_packet`, `ip_output_device`,
    `network_device_output`) and the input path (`ether_poll_helper`, `ip_input`,
    `udp_input`, `icmp_input`, `arp_input`). */
module Stack {
  import opened Options
  import opened Words
  import opened Wire
  import opened Routing
  import Arp = ArpCache
  import Udp = UdpMonitor
  import UdpRuns

  type Mac = Arp.Mac
  type Time = Arp.Time

  datatype DeviceKind = Ethernet | Loopback

  datatype Device = Device(kind: DeviceKind, up: bool, mtu: u16, address: Mac, ip: Option<Iface>)

  /** An entry of a protocol input queue. */
  datatype QueueEntry = QueueEntry(dev: nat, data: seq<u8>)

  /** What a device does with a packet: a frame on the wire, or an entry in the host's own
      input queue for that protocol type. */
  datatype Output = OnWire(dev: nat, frame: seq<u8>) | Looped(kind: u16, entry: QueueEntry)

  /** `id` is the counter of `ip_generate_id`. */
  datatype Host = Host(devices: seq<Device>, routes: seq<Route>, arp: seq<Arp.Entry>, udp: Udp.State, id: u16)

  datatype Sent = Sent(host: Host, outputs: seq<Output>, ok: bool)

  /** As `ether_setup_helper` and `loopback_setup` leave a device. */
  predicate DeviceOk(d: Device) {
    d.mtu == if d.kind == Ethernet then ETHER_PAYLOAD_MAX else 0xffff
  }

  ghost predicate HostOk(h: Host) {
    && (forall k :: 0 <= k < |h.devices| ==> DeviceOk(h.devices[k]))
    && (forall k :: 0 <= k < |h.routes| ==> h.routes[k].dev < |h.devices| && h.devices[h.routes[k].dev].ip.Some?)
    && |h.arp| == Arp.CACHE_SIZE
    && Udp.Shape(h.udp)
  }

  /** The configuration is the same and the tables keep their shape. */
  ghost predicate Keeps(h: Host, h': Host) {
    h'.devices == h.devices && h'.routes == h.routes && |h'.arp| == |h.arp| && Udp.Shape(h'.udp)
  }

  // ---------------------------------------------------------------- output

  /** `network_device_output` with the device's `transmit`. */
  function DeviceOutput(h: Host, dev: nat, kind: u16, data: seq<u8>, hw: Mac): (seq<Output>, bool)
    requires dev < |h.devices|
  {
    var d := h.devices[dev];
    if !d.up || |data| > d.mtu then ([], false)
    else match d.kind
      case Ethernet => ([OnWire(dev, EtherFrame(hw, d.address, kind, data))], true)
      case Loopback => ([Looped(kind, QueueEntry(dev, data))], true)
  }

  /** `ip_output_device`: an address that is not resolved yet gets a request, and the
      packet is dropped without an error. */
  function OutputDevice(h: Host, now: Time, dev: nat, packet: seq<u8>, nexthop: u32): (s: Sent)
    requires HostOk(h) && dev < |h.devices| && h.devices[dev].ip.Some?
    ensures Keeps(h, s.host) && s.host.udp == h.udp && |s.outputs| <= 1
  {
    var d, i := h.devices[dev], h.devices[dev].ip.value;
    if d.kind == Loopback then
      var (outs, ok) := DeviceOutput(h, dev, TYPE_IP, packet, Arp.MAC_ZERO);
      Sent(h, outs, ok)
    else if nexthop == i.broadcast || nexthop == ADDR_BROADCAST then
      var (outs, ok) := DeviceOutput(h, dev, TYPE_IP, packet, MAC_BROADCAST);
      Sent(h, outs, ok)
    else
      var (arp, answer) := Arp.Resolve(h.arp, now, nexthop);
      match answer
      case Found(ha) =>
        var (outs, ok) := DeviceOutput(h, dev, TYPE_IP, packet, ha);
        Sent(h, outs, ok)
      case Pending(_) =>
        var request := ArpPacket(ARP_REQUEST, d.address, i.unicast, Arp.MAC_ZERO, nexthop);
        Sent(h.(arp := arp), DeviceOutput(h, dev, TYPE_ARP, request, MAC_BROADCAST).0, true)
  }

  /** The checks of `ip_send_packet` on the source address and the route. */
  predicate Routable(h: Host, src: u32, dst: u32)
    requires HostOk(h)
  {
    var k := Lookup(h.routes, dst);
    && !(src == ADDR_ANY && dst == ADDR_BROADCAST)
    && k < |h.routes|
    && (src == ADDR_ANY || src == h.devices[h.routes[k].dev].ip.value.unicast)
  }

  /** The packet also fits the device of its route. */
  predicate Sendable(h: Host, size: nat, src: u32, dst: u32)
    requires HostOk(h)
  {
    Routable(h, src, dst) && IP_HEADER + size <= h.devices[h.routes[Lookup(h.routes, dst)].dev].mtu
  }

  function NextHop(r: Route, dst: u32): u32 {
    if r.nexthop != ADDR_ANY then r.nexthop else dst
  }

  /** The packet, which used up the current identifier, goes to the device of its route. */
  function SendRouted(h: Host, now: Time, packet: seq<u8>, r: Route, dst: u32): (s: Sent)
    requires HostOk(h) && r in h.routes
    ensures Keeps(h, s.host) && s.host.udp == h.udp && |s.outputs| <= 1
  {
    OutputDevice(h.(id := (h.id + 1) % 0x1_0000), now, r.dev, packet, NextHop(r, dst))
  }

  /** `ip_send_packet`. */
  function SendPacket(h: Host, now: Time, proto: u8, data: seq<u8>, src: u32, dst: u32): (s: Sent)
    requires HostOk(h)
    ensures Keeps(h, s.host) && s.host.udp == h.udp && |s.outputs| <= 1
    ensures s.outputs != [] ==> Sendable(h, |data|, src, dst)
  {
    if !Sendable(h, |data|, src, dst) then Sent(h, [], false)
    else
      var r := h.routes[Lookup(h.routes, dst)];
      var packet := IpPacket(proto, data, h.id, h.devices[r.dev].ip.value.unicast, dst);
      SendRouted(h, now, packet, r, dst)
  }

  /** The unicast address of the interface `ip_get_interface` finds for a destination. */
  function Reach(h: Host, dst: u32): Option<u32>
    requires HostOk(h)
  {
    var k := Lookup(h.routes, dst);
    if k == |h.routes| then None else Some(h.devices[h.routes[k].dev].ip.value.unicast)
  }

  /** `udp_sendto` with `udp_output`. */
  function SendTo(h: Host, now: Time, id: int, data: seq<u8>, foreign: Udp.Endpoint): (s: Sent)
    requires HostOk(h)
    ensures Keeps(h, s.host)
  {
    var (udp, r) := Udp.Next(-1, h.udp, Udp.DoSend(id, Reach(h, foreign.address)));
    var h' := h.(udp := udp);
    if !r.Sending? || |data| > MAX_IP_PAYLOAD - UDP_HEADER then Sent(h', [], false)
    else
      SendPacket(h', now, PROTO_UDP,
                 UdpSegment(r.local.address, r.local.port, foreign.address, foreign.port, data),
                 r.local.address, foreign.address)
  }

  // ---------------------------------------------------------------- input

  /** The interface takes packets to its unicast and broadcast address and to 255.255.255.255. */
  predicate Addressed(i: Iface, dst: u32) {
    dst == i.unicast || dst == i.broadcast || dst == ADDR_BROADCAST
  }

  /** `udp_input`. */
  function UdpInput(h: Host, data: seq<u8>, src: u32, dst: u32): (h': Host)
    requires HostOk(h)
    ensures Keeps(h, h')
  {
    var u := ParseUdp(data, src, dst);
    if u.None? then h
    else
      var d := Udp.Datagram(Udp.Endpoint(src, u.value.sport), u.value.data);
      h.(udp := Udp.Next(-1, h.udp, Udp.DoInput(dst, u.value.dport, d)).0)
  }

  /** `icmp_input`: an echo request is answered from the interface's unicast address. */
  function IcmpInput(h: Host, now: Time, data: seq<u8>, src: u32, i: Iface): (s: Sent)
    requires HostOk(h)
    ensures Keeps(h, s.host) && |s.outputs| <= 1
  {
    var m := ParseIcmp(data);
    if m.None? || m.value.kind != ECHO then Sent(h, [], true)
    else
      var reply := IcmpMessage(ECHO_REPLY, m.value.code, m.value.values, m.value.data);
      SendPacket(h, now, PROTO_ICMP, reply, i.unicast, src)
  }

  /** `ip_input` with the handlers registered for ICMP and UDP. Data that overruns the packet
      is refused by `udp_input` (`Wire.OverrunLength`); that it is dropped for ICMP is a choice
      of the model, the source leaving the packet's memory. */
  function IpInput(h: Host, now: Time, dev: nat, data: seq<u8>): (s: Sent)
    requires HostOk(h)
    ensures Keeps(h, s.host) && |s.outputs| <= 1
  {
    var p := ParseIp(data);
    if dev >= |h.devices| || h.devices[dev].ip.None? || !p.Payload? || !Addressed(h.devices[dev].ip.value, p.dst) then
      Sent(h, [], true)
    else if p.proto == PROTO_UDP then Sent(UdpInput(h, p.data, p.src, p.dst), [], true)
    else if p.proto == PROTO_ICMP then IcmpInput(h, now, p.data, p.src, h.devices[dev].ip.value)
    else Sent(h, [], true)
  }

  /** `arp_input`, run without interruption. */
  function ArpInput(h: Host, now: Time, dev: nat, data: seq<u8>): (s: Sent)
    requires HostOk(h)
    ensures Keeps(h, s.host) && |s.outputs| <= 1
  {
    var m := ParseArp(data);
    if m.None? || dev >= |h.devices| then Sent(h, [], true)
    else
      var msg, ip := m.value, h.devices[dev].ip;
      var mine := ip.Some? && ip.value.unicast == msg.tpa;
      var s := Arp.Next(Arp.Next(Arp.State(h.arp, None), Arp.FirstHalf(now, msg, mine)), Arp.SecondHalf(now));
      var outs :=
        if mine && msg.request then
          DeviceOutput(h, dev, TYPE_ARP,
                       ArpPacket(ARP_REPLY, h.devices[dev].address, ip.value.unicast, msg.sha, msg.spa), msg.sha).0
        else [];
      Sent(h.(arp := s.cache), outs, true)
  }

  /** The handler registered for a protocol type. */
  function Handle(h: Host, now: Time, kind: u16, e: QueueEntry): (s: Sent)
    requires HostOk(h)
    ensures Keeps(h, s.host) && |s.outputs| <= 1
  {
    if kind == TYPE_IP then IpInput(h, now, e.dev, e.data)
    else if kind == TYPE_ARP then ArpInput(h, now, e.dev, e.data)
    else Sent(h, [], true)
  }

  /** A frame taken from the wire by device `dev` and handled. */
  function ReceiveFrame(h: Host, now: Time, dev: nat, frame: seq<u8>): Sent
    requires HostOk(h) && dev < |h.devices|
  {
    var p := PollEther(h.devices[dev].address, frame);
    if p.None? then Sent(h, [], false) else Handle(h, now, p.value.kind, QueueEntry(dev, p.value.data))
  }

  // ---------------------------------------------------------------- the source check

  /** A sender bound to any address, on an unchanged route table, passes the source check
      of `ip_send_packet` exactly when it does not broadcast from interface 0.0.0.0. */
  lemma WildcardSenderRoutable(h: Host, id: int, foreign: Udp.Endpoint)
    requires HostOk(h) && Udp.Inv(h.udp) && Udp.Gets(h.udp.pcbs, id) && h.udp.pcbs[id].local.address == Udp.ADDR_ANY
    requires Reach(h, foreign.address).Some?
    ensures var r := Udp.Next(-1, h.udp, Udp.DoSend(id, Reach(h, foreign.address))).1;
            && r.Sending?
            && (Routable(h, r.local.address, foreign.address)
                <==> !(Reach(h, foreign.address).value == 0 && foreign.address == ADDR_BROADCAST))
  {
    UdpRuns.SendFailsIff(h.udp, id, Reach(h, foreign.address));
  }

  /** Such a broadcast is refused. */
  lemma BroadcastRefused(h: Host, now: Time, id: int, data: seq<u8>, port: u16)
    requires HostOk(h) && Udp.Inv(h.udp) && Udp.Gets(h.udp.pcbs, id) && h.udp.pcbs[id].local.address == Udp.ADDR_ANY
    requires Reach(h, ADDR_BROADCAST) == Some(0)
    ensures !SendTo(h, now, id, data, Udp.Endpoint(ADDR_BROADCAST, port)).ok
  {
    WildcardSenderRoutable(h, id, Udp.Endpoint(ADDR_BROADCAST, port));
    UdpRuns.SendFailsIff(h.udp, id, Reach(h, ADDR_BROADCAST));
  }

  /** A host with one interface. */
  function OneInterface(i: Iface, address: Mac, arp: seq<Arp.Entry>, udp: Udp.State): Host {
    Host([Device(Ethernet, true, ETHER_PAYLOAD_MAX, address, Some(i))], [SubnetRoute(i, 0)], arp, udp, 128)
  }

  lemma ReachesBy(i: Iface, address: Mac, arp: seq<Arp.Entry>, udp: Udp.State, dst: u32)
    requires |arp| == Arp.CACHE_SIZE && Udp.Shape(udp) && Matches(SubnetRoute(i, 0), dst)
    ensures var h := OneInterface(i, address, arp, udp); HostOk(h) && Reach(h, dst) == Some(i.unicast)
  {
    SingleRoute(SubnetRoute(i, 0), dst);
  }

  /** A host and a sender to which this happens: an interface with address and mask 0.0.0.0,
      and a control block just opened. */
  lemma ZeroBroadcaster(address: Mac, arp: seq<Arp.Entry>, now: Time, data: seq<u8>, port: u16)
    requires |arp| == Arp.CACHE_SIZE
    ensures var h := OneInterface(MakeIface(0, 0), address, arp, Udp.Next(-1, Udp.INIT, Udp.DoOpen).0);
            HostOk(h) && Reach(h, ADDR_BROADCAST) == Some(0)
            && !SendTo(h, now, 0, data, Udp.Endpoint(ADDR_BROADCAST, port)).ok
  {
    var udp := UdpRuns.FirstOpen();
    ZeroMaskMatches(0, ADDR_BROADCAST);
    ReachesBy(MakeIface(0, 0), address, arp, udp, ADDR_BROADCAST);
    BroadcastRefused(OneInterface(MakeIface(0, 0), address, arp, udp), now, 0, data, port);
  }

  // ---------------------------------------------------------------- what leaves a device

  /** The output is this packet, framed or looped back. */
  ghost predicate Carries(o: Output, d: Device, dev: nat, packet: seq<u8>) {
    match o
    case OnWire(k, frame) =>
      && k == dev && d.kind == Ethernet && |packet| <= d.mtu
      && exists hw: Mac :: frame == EtherFrame(hw, d.address, TYPE_IP, packet)
    case Looped(kind, e) => d.kind == Loopback && kind == TYPE_IP && e == QueueEntry(dev, packet)
  }

  /** The output is an ARP request. */
  ghost predicate Asks(o: Output) {
    o.OnWire? && exists src: Mac, spa: u32, tpa: u32 ::
      o.frame == EtherFrame(MAC_BROADCAST, src, TYPE_ARP, ArpPacket(ARP_REQUEST, src, spa, Arp.MAC_ZERO, tpa))
  }

  lemma OutputOfDevice(h: Host, now: Time, dev: nat, packet: seq<u8>, nexthop: u32, o: Output)
    requires HostOk(h) && dev < |h.devices| && h.devices[dev].ip.Some?
    requires o in OutputDevice(h, now, dev, packet, nexthop).outputs
    ensures Carries(o, h.devices[dev], dev, packet) || Asks(o)
  {
  }

  lemma OutputOfPacket(h: Host, now: Time, proto: u8, data: seq<u8>, src: u32, dst: u32, o: Output)
    requires HostOk(h) && o in SendPacket(h, now, proto, data, src, dst).outputs
    ensures Routable(h, src, dst) && |data| <= MAX_IP_PAYLOAD
    ensures var dev := h.routes[Lookup(h.routes, dst)].dev;
            var packet := IpPacket(proto, data, h.id, h.devices[dev].ip.value.unicast, dst);
            Carries(o, h.devices[dev], dev, packet) || Asks(o)
  {
    var r := h.routes[Lookup(h.routes, dst)];
    var packet := IpPacket(proto, data, h.id, h.devices[r.dev].ip.value.unicast, dst);
    OutputOfDevice(h.(id := (h.id + 1) % 0x1_0000), now, r.dev, packet, NextHop(r, dst), o);
  }

  // ---------------------------------------------------------------- when a packet leaves

  /** The hardware address a device uses for a next hop; none on loopback and while ARP has
      no answer. */
  function Hardware(d: Device, arp: seq<Arp.Entry>, now: Time, nexthop: u32): Option<Mac>
    requires d.ip.Some? && arp != []
  {
    if d.kind == Loopback then None
    else if nexthop == d.ip.value.broadcast || nexthop == ADDR_BROADCAST then Some(MAC_BROADCAST)
    else
      var a := Arp.Resolve(arp, now, nexthop).1;
      if a.Found? then Some(a.ha) else None
  }

  /** The device is up and knows where to send. */
  predicate Ready(d: Device, arp: seq<Arp.Entry>, now: Time, nexthop: u32)
    requires d.ip.Some? && arp != []
  {
    d.up && (d.kind == Loopback || Hardware(d, arp, now, nexthop).Some?)
  }

  predicate Departs(h: Host, now: Time, size: nat, src: u32, dst: u32)
    requires HostOk(h)
  {
    && Sendable(h, size, src, dst)
    && var r := h.routes[Lookup(h.routes, dst)];
       Ready(h.devices[r.dev], h.arp, now, NextHop(r, dst))
  }

  /** The hardware address for a destination. */
  function Target(h: Host, now: Time, dst: u32): Option<Mac>
    requires HostOk(h)
  {
    var k := Lookup(h.routes, dst);
    if k == |h.routes| then None
    else Hardware(h.devices[h.routes[k].dev], h.arp, now, NextHop(h.routes[k], dst))
  }

  lemma ReadyDevice(h: Host, now: Time, dev: nat, packet: seq<u8>, nexthop: u32)
    requires HostOk(h) && dev < |h.devices| && h.devices[dev].ip.Some? && |packet| <= h.devices[dev].mtu
    ensures var s := OutputDevice(h, now, dev, packet, nexthop);
            var d := h.devices[dev];
            if !Ready(d, h.arp, now, nexthop) then forall o :: o in s.outputs ==> Asks(o)
            else
              && s.ok
              && s.outputs == [match d.kind
                               case Loopback => Looped(TYPE_IP, QueueEntry(dev, packet))
                               case Ethernet =>
                                 var hw := Hardware(d, h.arp, now, nexthop).value;
                                 OnWire(dev, EtherFrame(hw, d.address, TYPE_IP, packet))]
  {
    forall o | o in OutputDevice(h, now, dev, packet, nexthop).outputs && !Ready(h.devices[dev], h.arp, now, nexthop)
      ensures Asks(o)
    {
      OutputOfDevice(h, now, dev, packet, nexthop, o);
    }
  }

  /** A carried IP packet is not an ARP request. */
  lemma CarriedIsNoRequest(o: Output, d: Device, dev: nat, packet: seq<u8>)
    requires DeviceOk(d) && Carries(o, d, dev, packet)
    ensures !Asks(o)
  {
    if Asks(o) {
      var src: Mac, spa: u32, tpa: u32 :|
        o.frame == EtherFrame(MAC_BROADCAST, src, TYPE_ARP, ArpPacket(ARP_REQUEST, src, spa, Arp.MAC_ZERO, tpa));
      EtherRoundTrip(MAC_BROADCAST, src, TYPE_ARP, ArpPacket(ARP_REQUEST, src, spa, Arp.MAC_ZERO, tpa), MAC_BROADCAST);
      CarriedArrives(o, d, dev, packet, MAC_BROADCAST);
    }
  }

  /** The output is a frame to this hardware address. */
  ghost predicate FrameTo(o: Output, hw: Mac) {
    o.OnWire? && exists src: Mac, kind: u16, data: seq<u8> ::
      |data| <= ETHER_PAYLOAD_MAX && o.frame == EtherFrame(hw, src, kind, data)
  }

  lemma FrameTaken(o: Output, hw: Mac, address: Mac)
    requires FrameTo(o, hw) && (hw == address || hw == MAC_BROADCAST)
    ensures PollEther(address, o.frame).Some?
  {
    var src: Mac, kind: u16, data: seq<u8> :| |data| <= ETHER_PAYLOAD_MAX && o.frame == EtherFrame(hw, src, kind, data);
    EtherRoundTrip(hw, src, kind, data, address);
  }

  /** Something other than an ARP request left exactly if `departs`: one output, and on
      Ethernet a frame to the target. */
  ghost predicate LeftIff(s: Sent, departs: bool, target: Option<Mac>) {
    && (departs <==> exists o :: o in s.outputs && !Asks(o))
    && (departs ==> s.ok && |s.outputs| == 1)
    && (departs && target.Some? ==> FrameTo(s.outputs[0], target.value))
  }

  lemma TheOutput(s: Sent, target: Option<Mac>) returns (o: Output)
    requires LeftIff(s, true, target)
    ensures s.ok && s.outputs == [o] && o in s.outputs && !Asks(o)
    ensures target.Some? ==> FrameTo(o, target.value)
  {
    o := s.outputs[0];
  }

  lemma DeviceLeavesIff(h: Host, now: Time, dev: nat, packet: seq<u8>, nexthop: u32)
    requires HostOk(h) && dev < |h.devices| && h.devices[dev].ip.Some? && |packet| <= h.devices[dev].mtu
    ensures LeftIff(OutputDevice(h, now, dev, packet, nexthop),
                    Ready(h.devices[dev], h.arp, now, nexthop), Hardware(h.devices[dev], h.arp, now, nexthop))
  {
    ReadyDevice(h, now, dev, packet, nexthop);
    if Ready(h.devices[dev], h.arp, now, nexthop) {
      var o := OutputDevice(h, now, dev, packet, nexthop).outputs[0];
      CarriedIsNoRequest(o, h.devices[dev], dev, packet);
      assert o in OutputDevice(h, now, dev, packet, nexthop).outputs;
    }
  }

  lemma RoutedLeavesIff(h: Host, now: Time, packet: seq<u8>, r: Route, dst: u32)
    requires HostOk(h) && r in h.routes && |packet| <= h.devices[r.dev].mtu
    ensures LeftIff(SendRouted(h, now, packet, r, dst),
                    Ready(h.devices[r.dev], h.arp, now, NextHop(r, dst)),
                    Hardware(h.devices[r.dev], h.arp, now, NextHop(r, dst)))
  {
    DeviceLeavesIff(h.(id := (h.id + 1) % 0x1_0000), now, r.dev, packet, NextHop(r, dst));
  }

  /** Exactly when a packet departs does `ip_send_packet` let anything but an ARP request out. */
  lemma PacketLeavesIff(h: Host, now: Time, proto: u8, data: seq<u8>, src: u32, dst: u32)
    requires HostOk(h)
    ensures LeftIff(SendPacket(h, now, proto, data, src, dst), Departs(h, now, |data|, src, dst), Target(h, now, dst))
  {
    var s := SendPacket(h, now, proto, data, src, dst);
    if Sendable(h, |data|, src, dst) {
      var r := h.routes[Lookup(h.routes, dst)];
      var packet := IpPacket(proto, data, h.id, h.devices[r.dev].ip.value.unicast, dst);
      RoutedLeavesIff(h, now, packet, r, dst);
      assert LeftIff(s, Ready(h.devices[r.dev], h.arp, now, NextHop(r, dst)), Target(h, now, dst));
    } else {
      assert s.outputs == [];
    }
  }

  // ---------------------------------------------------------------- end to end

  /** A carried packet is what a device that accepts the frame hands up, with padding. */
  lemma CarriedArrives(o: Output, d: Device, dev: nat, packet: seq<u8>, address: Mac)
    requires DeviceOk(d) && Carries(o, d, dev, packet) && o.OnWire? && PollEther(address, o.frame).Some?
    ensures PollEther(address, o.frame).value == EtherIn(TYPE_IP, packet + Padding(packet))
  {
  }

  lemma RequestIsArp(o: Output, address: Mac)
    requires Asks(o) && PollEther(address, o.frame).Some?
    ensures PollEther(address, o.frame).value.kind == TYPE_ARP
  {
  }

  /** The packet a sender's datagram leaves in names the sender's own endpoint. */
  lemma SentPacket(h: Host, now: Time, id: int, data: seq<u8>, foreign: Udp.Endpoint, o: Output)
    requires HostOk(h) && o in SendTo(h, now, id, data, foreign).outputs && !Asks(o)
    ensures var r := Udp.Next(-1, h.udp, Udp.DoSend(id, Reach(h, foreign.address))).1;
            && r.Sending? && |data| <= MAX_IP_PAYLOAD - UDP_HEADER
            && var segment := UdpSegment(r.local.address, r.local.port, foreign.address, foreign.port, data);
               var dev := h.routes[Lookup(h.routes, foreign.address)].dev;
               Carries(o, h.devices[dev], dev, IpPacket(PROTO_UDP, segment, h.id, r.local.address, foreign.address))
  {
    var (udp, r) := Udp.Next(-1, h.udp, Udp.DoSend(id, Reach(h, foreign.address)));
    var h' := h.(udp := udp);
    var segment := UdpSegment(r.local.address, r.local.port, foreign.address, foreign.port, data);
    OutputOfPacket(h', now, PROTO_UDP, segment, r.local.address, foreign.address, o);
    LocalIsUnicast(h, id, foreign);
  }

  /** A routable local address is the address of the interface used. */
  lemma LocalIsUnicast(h: Host, id: int, foreign: Udp.Endpoint)
    requires HostOk(h)
    ensures var r := Udp.Next(-1, h.udp, Udp.DoSend(id, Reach(h, foreign.address))).1;
            r.Sending? && Routable(h, r.local.address, foreign.address) ==>
              Reach(h, foreign.address) == Some(r.local.address)
  {
  }
}
