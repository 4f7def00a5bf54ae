/** The socket table over the control block table (src/lib/sock.c).

    Socket calls run one at a time; receivers may be blocked meanwhile, and the network
    may deliver, interrupt and wake them between calls. */
module Sockets {
  import opened Options
  import opened Words
  import opened UdpMonitor
  import opened UdpTable

  const MAX_SOCKS := 128
  const AF_INET := 2
  const SOCK_STREAM := 1
  const SOCK_DGRAM := 2

  datatype Sock = Sock(used: bool, family: int, kind: int, desc: int)

  const CLEARED := Sock(false, 0, 0, 0)

  datatype SockState = SockState(socks: seq<Sock>, udp: State)

  datatype SockOp =
    | SockOpen(domain: int, kind: int, protocol: int)
    | SockClose(id: int)
    | SockBind(id: int, local: Endpoint)
    | SockSend(id: int, reach: Option<u32>)
    | SockReceive(tid: Tid, id: int, size: nat)
    | Deliver(dst: u32, port: u16, datagram: Datagram)
    | Interrupt
    | Wake(tid: Tid)

  const INIT_SOCKS := SockState(seq(MAX_SOCKS, _ => CLEARED), INIT)

  ghost predicate SockShape(s: SockState) {
    |s.socks| == MAX_SOCKS && Shape(s.udp)
  }

  /** The slot `sock_alloc` takes, searching from slot `k`. */
  function SockAllocFrom(socks: seq<Sock>, k: nat): (i: nat)
    requires k <= |socks|
    ensures k <= i <= |socks| && (i < |socks| ==> !socks[i].used)
    ensures forall j :: k <= j < i ==> socks[j].used
    decreases |socks| - k
  {
    if k == |socks| || !socks[k].used then k else SockAllocFrom(socks, k + 1)
  }

  /** The check `sock_bind`, `sock_sendto` and `sock_recvfrom` make. */
  predicate IsDatagram(socks: seq<Sock>, id: int) {
    0 <= id < |socks| && socks[id].kind == SOCK_DGRAM && socks[id].family == AF_INET
  }

  function OpenSock(s: SockState, domain: int, kind: int, protocol: int): (SockState, Result)
    requires SockShape(s)
  {
    var k := SockAllocFrom(s.socks, 0);
    if domain != AF_INET || (kind != SOCK_STREAM && kind != SOCK_DGRAM) || protocol != 0 || k == |s.socks| then
      (s, Failed)
    else if kind == SOCK_DGRAM then
      var (udp, r) := Next(-1, s.udp, DoOpen);
      var desc := if r.Opened? then r.id else -1;
      (SockState(s.socks[k := Sock(true, domain, kind, desc)], udp), if desc == -1 then Failed else Opened(k))
    else
      var desc := s.socks[k].desc;
      (s.(socks := s.socks[k := Sock(true, domain, kind, desc)]), if desc == -1 then Failed else Opened(k))
  }

  function CloseSock(s: SockState, id: int): (SockState, Result)
    requires SockShape(s)
  {
    if 0 <= id < |s.socks| && s.socks[id].kind == SOCK_DGRAM then
      (SockState(s.socks[id := CLEARED], Next(-1, s.udp, DoClose(s.socks[id].desc)).0), Done)
    else (s, Failed)
  }

  function Through(s: SockState, id: int, op: Op): (SockState, Result)
    requires SockShape(s)
  {
    if IsDatagram(s.socks, id) then
      var (udp, r) := Next(-1, s.udp, op);
      (s.(udp := udp), r)
    else (s, Failed)
  }

  function SockNext(s: SockState, op: SockOp): (r: (SockState, Result))
    requires SockShape(s)
    ensures SockShape(r.0)
  {
    match op
    case SockOpen(domain, kind, protocol) => OpenSock(s, domain, kind, protocol)
    case SockClose(id) => CloseSock(s, id)
    case SockBind(id, local) => Through(s, id, DoBind(Desc(s, id), local))
    case SockSend(id, reach) => Through(s, id, DoSend(Desc(s, id), reach))
    case SockReceive(t, id, size) => Through(s, id, DoReceive(t, Desc(s, id), size))
    case Deliver(dst, port, d) => var (udp, r) := Next(-1, s.udp, DoInput(dst, port, d)); (s.(udp := udp), r)
    case Interrupt => var (udp, r) := Next(-1, s.udp, DoInterrupt); (s.(udp := udp), r)
    case Wake(t) => var (udp, r) := Next(-1, s.udp, DoResume(t)); (s.(udp := udp), r)
  }

  function Desc(s: SockState, id: int): int {
    if 0 <= id < |s.socks| then s.socks[id].desc else -1
  }

  function SockRun(s: SockState, ops: seq<SockOp>): (r: SockState)
    requires SockShape(s)
    ensures SockShape(r)
    decreases |ops|
  {
    if ops == [] then s else SockRun(SockNext(s, ops[0]).0, ops[1..])
  }

  // ---------------------------------------------------------------- ownership

  /** Socket `k` is a used datagram socket that holds slot `i`. */
  predicate Owns(s: SockState, k: nat, i: int) {
    k < |s.socks| && s.socks[k].used && s.socks[k].kind == SOCK_DGRAM && s.socks[k].desc == i
  }

  predicate SockOk(s: SockState, x: Sock)
    requires Shape(s.udp)
  {
    && (!x.used ==> x == CLEARED)
    && (x.kind == SOCK_DGRAM ==> x.used && x.family == AF_INET && (x.desc == -1 || Gets(s.udp.pcbs, x.desc)))
    && (x.kind != SOCK_DGRAM ==> x.desc == 0)
  }

  ghost predicate Ownership(s: SockState) {
    && SockShape(s)
    && (forall k :: 0 <= k < |s.socks| ==> SockOk(s, s.socks[k]))
    && (forall i :: 0 <= i < PCB_SIZE && s.udp.pcbs[i].state == Open ==> exists k: nat :: Owns(s, k, i))
    && (forall i, k: nat, k': nat :: i >= 0 && Owns(s, k, i) && Owns(s, k', i) ==> k == k')
  }

  lemma OpenSlotsKept(s: State, op: Op, i: nat)
    requires Shape(s) && i < PCB_SIZE && !op.DoOpen? && !op.DoClose?
    ensures Next(-1, s, op).0.pcbs[i].state == Open <==> s.pcbs[i].state == Open
  {
  }

  lemma UdpStepKeeps(s: SockState, op: Op)
    requires Ownership(s) && !op.DoOpen? && !op.DoClose?
    ensures Ownership(s.(udp := Next(-1, s.udp, op).0))
  {
    var s' := s.(udp := Next(-1, s.udp, op).0);
    forall i: nat | i < PCB_SIZE ensures s'.udp.pcbs[i].state == Open <==> s.udp.pcbs[i].state == Open {
      OpenSlotsKept(s.udp, op, i);
    }
    assert forall k: nat, i :: Owns(s', k, i) <==> Owns(s, k, i);
    forall k | 0 <= k < |s'.socks| ensures SockOk(s', s'.socks[k]) {
      assert SockOk(s, s.socks[k]);
    }
  }

  lemma OpenSockKeeps(s: SockState, domain: int, kind: int, protocol: int)
    requires Ownership(s)
    ensures Ownership(OpenSock(s, domain, kind, protocol).0)
  {
    var s' := OpenSock(s, domain, kind, protocol).0;
    var n := SockAllocFrom(s.socks, 0);
    if s' == s { return; }
    assert s.socks[n] == CLEARED by { assert SockOk(s, s.socks[n]); }
    forall k | 0 <= k < |s'.socks| ensures SockOk(s', s'.socks[k]) {
      assert SockOk(s, s.socks[k]);
    }
    assert forall k: nat, i :: k != n ==> (Owns(s', k, i) <==> Owns(s, k, i));
    forall i | 0 <= i < PCB_SIZE && s'.udp.pcbs[i].state == Open ensures exists k: nat :: Owns(s', k, i) {
      if s.udp.pcbs[i].state == Open {
        var k: nat :| Owns(s, k, i);
        assert Owns(s', k, i);
      } else {
        assert Owns(s', n, i);
      }
    }
    forall i, k: nat, k': nat | i >= 0 && Owns(s', k, i) && Owns(s', k', i) ensures k == k' {
      assert k != n ==> SockOk(s, s.socks[k]);
      assert k' != n ==> SockOk(s, s.socks[k']);
    }
  }

  lemma CloseSockKeeps(s: SockState, id: int)
    requires Ownership(s)
    ensures Ownership(CloseSock(s, id).0)
  {
    var s' := CloseSock(s, id).0;
    if !(0 <= id < |s.socks| && s.socks[id].kind == SOCK_DGRAM) { return; }
    assert SockOk(s, s.socks[id]);
    assert Owns(s, id, s.socks[id].desc);
    assert forall k: nat, i :: k != id ==> (Owns(s', k, i) <==> Owns(s, k, i));
    forall k | 0 <= k < |s'.socks| ensures SockOk(s', s'.socks[k]) {
      assert SockOk(s, s.socks[k]);
      assert s.socks[k].kind == SOCK_DGRAM ==> Owns(s, k, s.socks[k].desc);
    }
    forall i | 0 <= i < PCB_SIZE && s'.udp.pcbs[i].state == Open ensures exists k: nat :: Owns(s', k, i) {
      var k: nat :| Owns(s, k, i);
      assert Owns(s', k, i);
    }
  }

  lemma SockNextKeeps(s: SockState, op: SockOp)
    requires Ownership(s)
    ensures Ownership(SockNext(s, op).0)
  {
    match op
    case SockOpen(domain, kind, protocol) => OpenSockKeeps(s, domain, kind, protocol);
    case SockClose(id) => CloseSockKeeps(s, id);
    case SockBind(id, local) => UdpStepKeeps(s, DoBind(Desc(s, id), local));
    case SockSend(id, reach) => UdpStepKeeps(s, DoSend(Desc(s, id), reach));
    case SockReceive(t, id, size) => UdpStepKeeps(s, DoReceive(t, Desc(s, id), size));
    case Deliver(dst, port, d) => UdpStepKeeps(s, DoInput(dst, port, d));
    case Interrupt => UdpStepKeeps(s, DoInterrupt);
    case Wake(t) => UdpStepKeeps(s, DoResume(t));
  }

  lemma {:induction false} SockRunKeeps(s: SockState, ops: seq<SockOp>)
    requires Ownership(s)
    ensures Ownership(SockRun(s, ops))
    decreases |ops|
  {
    if ops == [] {
    } else {
      SockNextKeeps(s, ops[0]);
      SockRunKeeps(SockNext(s, ops[0]).0, ops[1..]);
    }
  }

  /** Over every run of socket calls: every open slot is held by exactly one used datagram
      socket, and a used datagram socket holds an open slot or the descriptor -1. */
  lemma OpenSlotsAreOwned(ops: seq<SockOp>)
    ensures var s := SockRun(INIT_SOCKS, ops);
            && (forall i :: 0 <= i < PCB_SIZE && s.udp.pcbs[i].state == Open ==>
                  exists k: nat :: Owns(s, k, i) && forall k': nat :: Owns(s, k', i) ==> k' == k)
            && (forall k: nat :: k < MAX_SOCKS && s.socks[k].used && s.socks[k].kind == SOCK_DGRAM ==>
                  s.socks[k].desc == -1 || Gets(s.udp.pcbs, s.socks[k].desc))
  {
    SockRunKeeps(INIT_SOCKS, ops);
    var s := SockRun(INIT_SOCKS, ops);
    forall i | 0 <= i < PCB_SIZE && s.udp.pcbs[i].state == Open
      ensures exists k: nat :: Owns(s, k, i) && forall k': nat :: Owns(s, k', i) ==> k' == k
    {
      var k: nat :| Owns(s, k, i);
    }
    forall k: nat | k < MAX_SOCKS ensures SockOk(s, s.socks[k]) {}
  }

  // ---------------------------------------------------------------- the table in place

  class SockTable {
    const socks: array<Sock>
    const udp: Table

    ghost function View(): SockState
      reads this, socks, udp, udp.pcbs
    {
      SockState(socks[..], udp.View())
    }

    ghost predicate Valid()
      reads this, socks, udp, udp.pcbs
    {
      SockShape(View())
    }

    constructor ()
      ensures Valid() && fresh(socks) && fresh(udp) && fresh(udp.pcbs) && View() == INIT_SOCKS
    {
      socks := new Sock[MAX_SOCKS](_ => CLEARED);
      udp := new Table();
      new;
      assert socks[..] == INIT_SOCKS.socks;
    }

    /** `sock_open` with the scan of `sock_alloc`. */
    method Open(domain: int, kind: int, protocol: int) returns (r: Result)
      requires Valid()
      modifies socks, udp.pcbs
      ensures Valid() && (View(), r) == SockNext(old(View()), SockOpen(domain, kind, protocol))
    {
      if domain != AF_INET || (kind != SOCK_STREAM && kind != SOCK_DGRAM) || protocol != 0 {
        return Failed;
      }
      var i := 0;
      while i < MAX_SOCKS && socks[i].used
        invariant 0 <= i <= MAX_SOCKS
        invariant SockAllocFrom(socks[..], i) == SockAllocFrom(socks[..], 0)
      {
        i := i + 1;
      }
      if i == MAX_SOCKS {
        return Failed;
      }
      var desc := socks[i].desc;
      if kind == SOCK_DGRAM {
        var pcb := udp.OpenPcb();
        desc := if pcb.Opened? then pcb.id else -1;
      }
      socks[i] := Sock(true, domain, kind, desc);
      r := if desc == -1 then Failed else Opened(i);
    }

    /** `sock_close`. */
    method Close(id: int) returns (r: Result)
      requires Valid()
      modifies socks, udp.pcbs, udp`threads
      ensures Valid() && (View(), r) == SockNext(old(View()), SockClose(id))
    {
      if !(0 <= id < MAX_SOCKS) || socks[id].kind != SOCK_DGRAM {
        return Failed;
      }
      var _ := udp.Close(-1, socks[id].desc);
      socks[id] := CLEARED;
      r := Done;
    }
  }
}
