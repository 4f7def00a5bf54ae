/** Draining with the stack's own handlers, whose sends may loop back through the loopback
    device (device/loopback.c, src/lib/icmp.c, src/lib/arp.c).

    An ICMP echo request or an ARP request may put its reply into the queue being drained;
    it weighs two, anything else one, and the replies weigh one. */
module Drain {
  import opened Options
  import opened Words
  import opened Wire
  import opened Routing
  import opened Stack
  import opened EndToEnd
  import opened Draining
  import Arp = ArpCache
  import Udp = UdpMonitor

  predicate IsEcho(data: seq<u8>) {
    var p := ParseIp(data);
    p.Payload? && p.proto == PROTO_ICMP && ParseIcmp(p.data).Some? && ParseIcmp(p.data).value.kind == ECHO
  }

  predicate IsArpRequest(data: seq<u8>) {
    ParseArp(data).Some? && ParseArp(data).value.request
  }

  function Weight(kind: u16, e: QueueEntry): nat {
    if (kind == TYPE_IP && IsEcho(e.data)) || (kind == TYPE_ARP && IsArpRequest(e.data)) then 2 else 1
  }

  /** The entry is not an ICMP packet with a header above its total length. On such a packet
      `icmp_input` leaves the packet's memory, and the model, which drops it, says nothing
      about the source. */
  predicate Defined(kind: u16, e: QueueEntry) {
    kind == TYPE_IP ==> ParseIp(e.data) != Overrun(PROTO_ICMP)
  }

  /** Every looped output goes back to the queue of type `kind`, weighs less than `w` and is
      defined. */
  ghost predicate Lighter(outs: seq<Output>, kind: u16, w: nat) {
    forall k :: 0 <= k < |outs| && outs[k].Looped? ==>
      outs[k].kind == kind && Weight(kind, outs[k].entry) < w && Defined(kind, outs[k].entry)
  }

  /** The reply to an echo request is not itself an echo request. */
  lemma EchoReplyIsLight(h: Host, now: Time, data: seq<u8>, src: u32, i: Iface, o: Output)
    requires HostOk(h)
    requires o in IcmpInput(h, now, data, src, i).outputs && o.Looped?
    ensures o.kind == TYPE_IP && !IsEcho(o.entry.data) && Defined(TYPE_IP, o.entry)
  {
    EchoAnswered(h, now, data, src, i, o);
    var m := ParseIcmp(data);
    var dev: nat, packet: seq<u8> :| dev < |h.devices| && Carries(o, h.devices[dev], dev, packet)
                                     && IsReply(packet, m.value, h.devices[dev].ip, src);
  }

  lemma IpLoopsLighter(h: Host, now: Time, e: QueueEntry)
    requires HostOk(h)
    ensures Lighter(IpInput(h, now, e.dev, e.data).outputs, TYPE_IP, Weight(TYPE_IP, e))
  {
    var outs, p := IpInput(h, now, e.dev, e.data).outputs, ParseIp(e.data);
    forall k | 0 <= k < |outs| && outs[k].Looped?
      ensures outs[k].kind == TYPE_IP && Weight(TYPE_IP, outs[k].entry) < Weight(TYPE_IP, e)
      ensures Defined(TYPE_IP, outs[k].entry)
    {
      EchoReplyIsLight(h, now, p.data, p.src, h.devices[e.dev].ip.value, outs[k]);
      assert IsEcho(e.data);
    }
  }

  /** The reply to an ARP request is not itself a request. */
  lemma ArpLoopsLighter(h: Host, now: Time, e: QueueEntry)
    requires HostOk(h)
    ensures Lighter(ArpInput(h, now, e.dev, e.data).outputs, TYPE_ARP, Weight(TYPE_ARP, e))
  {
    var m := ParseArp(e.data);
    if m.Some? && e.dev < |h.devices| && h.devices[e.dev].ip.Some? {
      var d := h.devices[e.dev];
      var reply := ArpPacket(ARP_REPLY, d.address, d.ip.value.unicast, m.value.sha, m.value.spa);
      ReplyIsNoRequest(reply, d.address, d.ip.value.unicast, m.value.sha, m.value.spa);
      assert forall o :: o in ArpInput(h, now, e.dev, e.data).outputs && o.Looped? ==>
               m.value.request && o == Looped(TYPE_ARP, QueueEntry(e.dev, reply));
    }
  }

  lemma ReplyIsNoRequest(reply: seq<u8>, sha: Mac, spa: u32, tha: Mac, tpa: u32)
    requires reply == ArpPacket(ARP_REPLY, sha, spa, tha, tpa)
    ensures !IsArpRequest(reply)
  {
    ArpRoundTrip(ARP_REPLY, sha, spa, tha, tpa, []);
    assert reply + [] == reply;
  }

  lemma HandleLoopsLighter(h: Host, now: Time, kind: u16, e: QueueEntry)
    requires HostOk(h)
    ensures Lighter(Handle(h, now, kind, e).outputs, kind, Weight(kind, e))
  {
    if kind == TYPE_IP {
      IpLoopsLighter(h, now, e);
    } else if kind == TYPE_ARP {
      ArpLoopsLighter(h, now, e);
    }
  }

  // ---------------------------------------------------------------- the stack's handlers

  const EMPTY_HOST := Host([], [], seq(Arp.CACHE_SIZE, _ => Arp.CLEARED), Udp.INIT, 128)

  type GoodHost = h: Host | HostOk(h) ghost witness EMPTY_HOST

  lemma KeepsOk(h: Host, h': Host)
    requires HostOk(h) && Keeps(h, h')
    ensures HostOk(h')
  {
  }

  /** What a handler call pushes into the queues: its looped outputs. */
  function LoopedBack(outs: seq<Output>): seq<(u16, QueueEntry)> {
    if outs == [] then []
    else (if outs[0].Looped? then [(outs[0].kind, outs[0].entry)] else []) + LoopedBack(outs[1..])
  }

  /** The registered handlers; `clock` gives the time at each dispatch. */
  function Dispatch(clock: nat -> Time, h: GoodHost, n: nat, kind: u16, e: QueueEntry):
      (r: (GoodHost, seq<(u16, QueueEntry)>))
  {
    var s := Handle(h, clock(n), kind, e);
    KeepsOk(h, s.host);
    (s.host, LoopedBack(s.outputs))
  }

  function StackHandler(clock: nat -> Time): Handler<GoodHost, QueueEntry> {
    (h: GoodHost, n: nat, kind: u16, e: QueueEntry) => Dispatch(clock, h, n, kind, e)
  }

  lemma LoopedBackLighter(outs: seq<Output>, kind: u16, w: nat)
    requires |outs| <= 1 && Lighter(outs, kind, w) && w > 0
    ensures AllOfKind(LoopedBack(outs), kind) && TotalWeight(Weight, kind, Entries(LoopedBack(outs))) < w
    ensures forall x :: x in Entries(LoopedBack(outs)) ==> Defined(kind, x)
  {
  }

  lemma DispatchLoopsDown(clock: nat -> Time, h: GoodHost, n: nat, kind: u16, e: QueueEntry)
    ensures var pushes := Dispatch(clock, h, n, kind, e).1;
            AllOfKind(pushes, kind) && TotalWeight(Weight, kind, Entries(pushes)) < Weight(kind, e)
    ensures forall x :: x in Entries(Dispatch(clock, h, n, kind, e).1) ==> Defined(kind, x)
  {
    HandleLoopsLighter(h, clock(n), kind, e);
    LoopedBackLighter(Handle(h, clock(n), kind, e).outputs, kind, Weight(kind, e));
  }

  /** The stack's handlers push only into their own queues, and lighter entries: so draining
      them ends, whatever is queued, although they send through the loopback device. */
  lemma StackLoopsDown(clock: nat -> Time)
    ensures LoopsDown(StackHandler(clock), Weight)
  {
    forall h: GoodHost, n: nat, kind: u16, e: QueueEntry
      ensures var pushes := StackHandler(clock)(h, n, kind, e).1;
              AllOfKind(pushes, kind) && TotalWeight(Weight, kind, Entries(pushes)) < Weight(kind, e)
    {
      DispatchLoopsDown(clock, h, n, kind, e);
    }
  }

  /** What they push back is never an overrun. */
  lemma StackPushesDefined(clock: nat -> Time)
    ensures PushesOnly(StackHandler(clock), Defined)
  {
    forall h: GoodHost, n: nat, kind: u16, e: QueueEntry, x: QueueEntry
      | x in Entries(StackHandler(clock)(h, n, kind, e).1)
      ensures Defined(kind, x)
    {
      DispatchLoopsDown(clock, h, n, kind, e);
    }
  }

  lemma {:induction false} WeightAtMostTwice(kind: u16, q: seq<QueueEntry>)
    ensures |q| <= TotalWeight(Weight, kind, q) <= 2 * |q|
  {
    if q == [] {
    } else {
      WeightAtMostTwice(kind, q[1..]);
    }
  }

  /** The queued entries of one protocol type, in order of arrival. */
  function OfKind(frames: seq<(u16, QueueEntry)>, kind: u16): seq<QueueEntry> {
    if frames == [] then []
    else OfKind(frames[..|frames| - 1], kind)
         + (if frames[|frames| - 1].0 == kind then [frames[|frames| - 1].1] else [])
  }

  /** Draining a queue with the stack's handlers dispatches its entries in order, then those
      looped back meanwhile, in order, and of these there are at most as many; each turn is
      made by the host the one before left. If no queued entry is an overrun, none is ever
      dispatched. */
  lemma StackDrains(clock: nat -> Time, h: GoodHost, n: nat, kind: u16, q: seq<QueueEntry>)
    requires forall e :: e in q ==> Defined(kind, e)
    ensures LoopsDown(StackHandler(clock), Weight)
    ensures var r := DrainQueue(StackHandler(clock), Weight, h, n, kind, q);
            && r.dispatched == q + r.pushed && |r.pushed| <= |q|
            && Turns(StackHandler(clock), h, n, kind, r.dispatched, r.pushed, r.host)
            && forall e :: e in r.dispatched ==> Defined(kind, e)
  {
    StackLoopsDown(clock);
    StackPushesDefined(clock);
    PushedIsOk(StackHandler(clock), Weight, h, n, kind, q, Defined);
    WeightAtMostTwice(kind, q);
    DrainedByTurns(StackHandler(clock), Weight, h, n, kind, q);
  }

  // ---------------------------------------------------------------- datagrams

  /** A datagram from `local` to `foreign`, its packet's identifier and padding. */
  datatype AnyFlight = Flight(local: Udp.Endpoint, foreign: Udp.Endpoint, data: seq<u8>, id: u16, pad: seq<u8>)

  type Flight = f: AnyFlight | |f.data| <= MAX_IP_PAYLOAD - UDP_HEADER
    witness AnyFlight.Flight(Udp.UNBOUND, Udp.UNBOUND, [], 0, [])

  /** The queue entry it is on device `dev`. */
  function EntryOf(dev: nat, f: Flight): QueueEntry {
    var segment := UdpSegment(f.local.address, f.local.port, f.foreign.address, f.foreign.port, f.data);
    QueueEntry(dev, IpPacket(PROTO_UDP, segment, f.id, f.local.address, f.foreign.address) + f.pad)
  }

  /** The datagram is for the interface of device `dev`. */
  predicate Mine(devices: seq<Device>, dev: nat, f: Flight) {
    && dev < |devices| && devices[dev].ip.Some?
    && var i := devices[dev].ip.value; f.foreign.address in {i.unicast, i.broadcast, ADDR_BROADCAST}
  }

  /** The host after taking it in. */
  function TakeIn(h: GoodHost, f: Flight): (h': GoodHost)
    ensures h'.devices == h.devices
  {
    KeepsOk(h, Received(h, f.foreign, f.local, f.data));
    Received(h, f.foreign, f.local, f.data)
  }

  lemma FlightDispatched(clock: nat -> Time, h: GoodHost, n: nat, dev: nat, f: Flight)
    requires Mine(h.devices, dev, f)
    ensures StackHandler(clock)(h, n, TYPE_IP, EntryOf(dev, f)) == (TakeIn(h, f), [])
  {
    PacketUnderstood(h, clock(n), dev, f.local, f.foreign, f.data, f.id, f.pad);
    PushesWhatLoops(clock, h, n, TYPE_IP, EntryOf(dev, f));
  }

  /** Draining a queue of datagrams for this host takes every one of them in, in order, and
      pushes nothing back. */
  lemma DatagramsDrained(clock: nat -> Time, h: GoodHost, n: nat, dev: nat, fs: seq<Flight>, q: seq<QueueEntry>)
    requires |q| == |fs|
    requires forall j :: 0 <= j < |fs| ==> Mine(h.devices, dev, fs[j]) && q[j] == EntryOf(dev, fs[j])
    ensures LoopsDown(StackHandler(clock), Weight)
    ensures DrainQueue(StackHandler(clock), Weight, h, n, TYPE_IP, q) == Drained(Fold(h, fs, TakeIn), n + |q|, q, [])
  {
    var entry := (f: Flight) => EntryOf(dev, f);
    var ok := (g: GoodHost, f: Flight) => Mine(g.devices, dev, f);
    StackLoopsDown(clock);
    forall g: GoodHost, m: nat, f: Flight | ok(g, f)
      ensures StackHandler(clock)(g, m, TYPE_IP, entry(f)) == (TakeIn(g, f), [])
    {
      FlightDispatched(clock, g, m, dev, f);
    }
    QuietDrain(StackHandler(clock), Weight, h, n, TYPE_IP, q, fs, entry, TakeIn, ok);
  }

  // ---------------------------------------------------------------- what loops back comes back

  /** A handler call leaves the host the handler leaves, and pushes exactly what it sends through
      the loopback device. */
  lemma PushesWhatLoops(clock: nat -> Time, h: GoodHost, n: nat, kind: u16, e: QueueEntry)
    ensures Dispatch(clock, h, n, kind, e).0 == Handle(h, clock(n), kind, e).host
    ensures var outs := Handle(h, clock(n), kind, e).outputs;
            Dispatch(clock, h, n, kind, e).1
            == if outs != [] && outs[0].Looped? then [(outs[0].kind, outs[0].entry)] else []
  {
    LoopedBackOne(Handle(h, clock(n), kind, e).outputs);
  }

  lemma LoopedBackOne(outs: seq<Output>)
    requires |outs| <= 1
    ensures LoopedBack(outs) == if outs != [] && outs[0].Looped? then [(outs[0].kind, outs[0].entry)] else []
  {
  }

  /** An echo request whose answer goes through a loopback device. */
  predicate LoopsEcho(h: Host, dev: nat, size: nat, src: u32, dst: u32)
    requires HostOk(h)
  {
    && dev < |h.devices| && h.devices[dev].ip.Some? && size <= MAX_IP_PAYLOAD - ICMP_HEADER
    && var i := h.devices[dev].ip.value;
       && dst in {i.unicast, i.broadcast, ADDR_BROADCAST} && Sendable(h, ICMP_HEADER + size, i.unicast, src)
       && var d := h.devices[h.routes[Lookup(h.routes, src)].dev];
          d.kind == Loopback && d.up
  }

  /** The entry is an echo reply with this content, to `src`. */
  predicate IsEchoReply(x: QueueEntry, from: u32, src: u32, code: u8, values: u32, data: seq<u8>) {
    ParseIp(x.data) == Payload(PROTO_ICMP, from, src, IcmpMessage(ECHO_REPLY, code, values, data))
  }

  lemma EchoLoops(h: Host, now: Time, dev: nat, code: u8, values: u32, data: seq<u8>, id: u16, src: u32, dst: u32,
                  pad: seq<u8>)
    requires HostOk(h) && LoopsEcho(h, dev, |data|, src, dst)
    ensures var ping := IpPacket(PROTO_ICMP, IcmpMessage(ECHO, code, values, data), id, src, dst) + pad;
            var out := h.routes[Lookup(h.routes, src)].dev;
            var outs := Handle(h, now, TYPE_IP, QueueEntry(dev, ping)).outputs;
            && |outs| == 1 && outs[0].Looped? && outs[0].kind == TYPE_IP && outs[0].entry.dev == out
            && IsEchoReply(outs[0].entry, h.devices[out].ip.value.unicast, src, code, values, data)
  {
    IcmpUnderstood(h, now, dev, ECHO, code, values, data, id, src, dst, pad);
    var reply := IcmpMessage(ECHO_REPLY, code, values, data);
    var r := h.routes[Lookup(h.routes, src)];
    var packet := IpPacket(PROTO_ICMP, reply, h.id, h.devices[r.dev].ip.value.unicast, src);
    ReadyDevice(h.(id := (h.id + 1) % 0x1_0000), now, r.dev, packet, NextHop(r, src));
    IpRoundTrip(PROTO_ICMP, reply, h.id, h.devices[r.dev].ip.value.unicast, src, []);
    assert packet + [] == packet;
  }

  function SameConfiguration(h: GoodHost): GoodHost -> bool {
    (g: GoodHost) => g.devices == h.devices && g.routes == h.routes
  }

  lemma HandlersKeepConfiguration(clock: nat -> Time, h: GoodHost)
    ensures KeepsGood(StackHandler(clock), SameConfiguration(h))
  {
    forall g: GoodHost, n: nat, kind: u16, e: QueueEntry | SameConfiguration(h)(g)
      ensures SameConfiguration(h)(StackHandler(clock)(g, n, kind, e).0)
    {
      assert Keeps(g, Handle(g, clock(n), kind, e).host);
    }
  }

  function EchoReplies(out: nat, from: u32, src: u32, code: u8, values: u32, data: seq<u8>): QueueEntry -> bool {
    (x: QueueEntry) => x.dev == out && IsEchoReply(x, from, src, code, values, data)
  }

  lemma DispatchYields(clock: nat -> Time, g: GoodHost, n: nat, dev: nat,
                       code: u8, values: u32, data: seq<u8>, id: u16, src: u32, dst: u32, pad: seq<u8>)
      returns (x: QueueEntry)
    requires LoopsEcho(g, dev, |data|, src, dst)
    ensures var ping := IpPacket(PROTO_ICMP, IcmpMessage(ECHO, code, values, data), id, src, dst) + pad;
            x in Entries(Dispatch(clock, g, n, TYPE_IP, QueueEntry(dev, ping)).1)
    ensures var out := g.routes[Lookup(g.routes, src)].dev;
            EchoReplies(out, g.devices[out].ip.value.unicast, src, code, values, data)(x)
  {
    var e := QueueEntry(dev, IpPacket(PROTO_ICMP, IcmpMessage(ECHO, code, values, data), id, src, dst) + pad);
    EchoLoops(g, clock(n), dev, code, values, data, id, src, dst, pad);
    PushesWhatLoops(clock, g, n, TYPE_IP, e);
    x := Handle(g, clock(n), TYPE_IP, e).outputs[0].entry;
    assert Entries(Dispatch(clock, g, n, TYPE_IP, e).1)[0] == x;
  }

  lemma EchoYields(clock: nat -> Time, h: GoodHost, dev: nat,
                   code: u8, values: u32, data: seq<u8>, id: u16, src: u32, dst: u32, pad: seq<u8>, e: QueueEntry)
    requires LoopsEcho(h, dev, |data|, src, dst)
    requires e == QueueEntry(dev, IpPacket(PROTO_ICMP, IcmpMessage(ECHO, code, values, data), id, src, dst) + pad)
    ensures var out := h.routes[Lookup(h.routes, src)].dev;
            var from := h.devices[out].ip.value.unicast;
            Yields(StackHandler(clock), TYPE_IP, e, SameConfiguration(h),
                   EchoReplies(out, from, src, code, values, data))
  {
    var out := h.routes[Lookup(h.routes, src)].dev;
    var ok := EchoReplies(out, h.devices[out].ip.value.unicast, src, code, values, data);
    forall g: GoodHost, n: nat | SameConfiguration(h)(g)
      ensures YieldsAt(StackHandler(clock), g, n, TYPE_IP, e, ok)
    {
      var x := DispatchYields(clock, g, n, dev, code, values, data, id, src, dst, pad);
    }
  }

  /** So the reply to a queued echo request over loopback is itself dispatched in the same
      drain, however many entries are handled before. */
  lemma LoopbackEchoDrained(clock: nat -> Time, h: GoodHost, n: nat, q: seq<QueueEntry>, dev: nat,
                            code: u8, values: u32, data: seq<u8>, id: u16, src: u32, dst: u32, pad: seq<u8>)
      returns (x: QueueEntry)
    requires LoopsEcho(h, dev, |data|, src, dst)
    requires QueueEntry(dev, IpPacket(PROTO_ICMP, IcmpMessage(ECHO, code, values, data), id, src, dst) + pad) in q
    ensures LoopsDown(StackHandler(clock), Weight)
    ensures var r := DrainQueue(StackHandler(clock), Weight, h, n, TYPE_IP, q); x in r.pushed && x in r.dispatched
    ensures var out := h.routes[Lookup(h.routes, src)].dev;
            x.dev == out && IsEchoReply(x, h.devices[out].ip.value.unicast, src, code, values, data)
  {
    var e := QueueEntry(dev, IpPacket(PROTO_ICMP, IcmpMessage(ECHO, code, values, data), id, src, dst) + pad);
    var out := h.routes[Lookup(h.routes, src)].dev;
    var ok := EchoReplies(out, h.devices[out].ip.value.unicast, src, code, values, data);
    StackLoopsDown(clock);
    HandlersKeepConfiguration(clock, h);
    EchoYields(clock, h, dev, code, values, data, id, src, dst, pad, e);
    x := YieldIsDrained(StackHandler(clock), Weight, h, n, TYPE_IP, q, e, SameConfiguration(h), ok);
  }

  /** `network_init`: the two protocols, most recently registered first. */
  method Initialise(clock: nat -> Time, h: GoodHost) returns (net: Network<GoodHost, QueueEntry>)
    ensures fresh(net) && fresh(net.list) && fresh(net.list.repr) && net.Valid()
    ensures net.handler == StackHandler(clock) && net.weigh == Weight && net.host == h
    ensures net.protocols == [Protocol(TYPE_IP, []), Protocol(TYPE_ARP, [])]
  {
    net := new Network(StackHandler(clock), Weight, h);
    var _ := net.Register(TYPE_ARP);
    var _ := net.Register(TYPE_IP);
  }

  /** Frames arrive and are queued. */
  method Arrive(net: Network<GoodHost, QueueEntry>, frames: seq<(u16, QueueEntry)>)
    requires net.Valid() && net.protocols == [Protocol(TYPE_IP, []), Protocol(TYPE_ARP, [])]
    modifies net`protocols, net.list, net.list.repr
    ensures net.Valid() && fresh(net.list.repr - old(net.list.repr))
    ensures net.protocols == [Protocol(TYPE_IP, OfKind(frames, TYPE_IP)), Protocol(TYPE_ARP, OfKind(frames, TYPE_ARP))]
  {
    for i := 0 to |frames|
      invariant net.Valid() && fresh(net.list.repr - old(net.list.repr)) && |net.protocols| == 2
      invariant net.protocols[0] == Protocol(TYPE_IP, OfKind(frames[..i], TYPE_IP))
      invariant net.protocols[1] == Protocol(TYPE_ARP, OfKind(frames[..i], TYPE_ARP))
    {
      net.InputHandler(frames[i].0, frames[i].1);
      assert frames[..i + 1][..i] == frames[..i];
    }
    assert frames[..|frames|] == frames;
  }

  /** Frames arrive and the queues are drained: first all of IP, then all of ARP. */
  method ArriveAndDrain(clock: nat -> Time, h: GoodHost, frames: seq<(u16, QueueEntry)>)
    returns (ip: Drained<GoodHost, QueueEntry>, arp: Drained<GoodHost, QueueEntry>)
    requires forall i :: 0 <= i < |frames| ==> Defined(frames[i].0, frames[i].1)
    ensures LoopsDown(StackHandler(clock), Weight)
    ensures ip == DrainQueue(StackHandler(clock), Weight, h, 0, TYPE_IP, OfKind(frames, TYPE_IP))
    ensures arp == DrainQueue(StackHandler(clock), Weight, ip.host, ip.next, TYPE_ARP, OfKind(frames, TYPE_ARP))
    ensures forall e :: e in ip.dispatched ==> Defined(TYPE_IP, e)
  {
    StackLoopsDown(clock);
    var net := Initialise(clock, h);
    Arrive(net, frames);
    ghost var protos := net.protocols;
    var log := net.ProtocolHandler();
    assert LoggedAt(StackHandler(clock), Weight, h, 0, protos, log, 0);
    assert LoggedAt(StackHandler(clock), Weight, h, 0, protos, log, 1);
    ip, arp := log[0], log[1];
    OfKindDefined(frames, TYPE_IP);
    StackDrains(clock, h, 0, TYPE_IP, OfKind(frames, TYPE_IP));
  }

  lemma {:induction false} OfKindDefined(frames: seq<(u16, QueueEntry)>, kind: u16)
    requires forall i :: 0 <= i < |frames| ==> Defined(frames[i].0, frames[i].1)
    ensures forall e :: e in OfKind(frames, kind) ==> Defined(kind, e)
  {
    if frames == [] {
    } else {
      OfKindDefined(frames[..|frames| - 1], kind);
    }
  }
}
