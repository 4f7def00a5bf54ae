/** What a user of the socket calls can rely on: which control block a socket reaches, and that
    calls on one socket leave the others alone. */
module SockCalls {
  import opened Options
  import opened Words
  import opened UdpMonitor
  import opened UdpRuns
  import opened UdpSteps
  import opened Sockets

  /** The descriptor of a socket call is not a datagram socket with a control block. */
  predicate NoBlock(s: SockState, id: int) {
    !(0 <= id < |s.socks| && s.socks[id].used && s.socks[id].kind == SOCK_DGRAM && s.socks[id].desc != -1)
  }

  /** `sock_open` of a datagram socket hands out the lowest unused socket with a control block
      that was free; without a free block it fails, and the socket stays used without one. Bad
      arguments and a full table fail without effect. */
  lemma OpenGivesSocket(s: SockState, domain: int, kind: int, protocol: int)
    requires Ownership(s) && Inv(s.udp)
    ensures var (s', r) := SockNext(s, SockOpen(domain, kind, protocol));
            if domain != AF_INET || kind !in {SOCK_STREAM, SOCK_DGRAM} || protocol != 0
               || forall j :: 0 <= j < MAX_SOCKS ==> s.socks[j].used then
              r == Failed && s' == s
            else
              exists k: nat ::
                && k < MAX_SOCKS && !s.socks[k].used && (forall j :: 0 <= j < k ==> s.socks[j].used)
                && s'.socks == s.socks[k := s'.socks[k]] && s'.socks[k].used
                && if kind == SOCK_STREAM then r == Opened(k) && s'.udp == s.udp && s'.socks[k].kind == SOCK_STREAM
                   else if r == Failed then
                     Owns(s', k, -1) && s'.udp == s.udp && forall i :: 0 <= i < PCB_SIZE ==> s.udp.pcbs[i].state != Free
                   else r == Opened(k) && GivesBlock(s, s', k)
  {
    var k := SockAllocFrom(s.socks, 0);
    if domain == AF_INET && kind in {SOCK_STREAM, SOCK_DGRAM} && protocol == 0 && k < MAX_SOCKS {
      var s' := SockNext(s, SockOpen(domain, kind, protocol)).0;
      assert SockOk(s, s.socks[k]);
      assert s'.socks == s.socks[k := s'.socks[k]];
    }
  }

  /** The new socket owns a block that was free and is now open. */
  ghost predicate GivesBlock(s: SockState, s': SockState, k: nat)
    requires SockShape(s) && SockShape(s') && k < MAX_SOCKS
  {
    var i := s'.socks[k].desc;
    && Owns(s', k, i) && 0 <= i < PCB_SIZE && s.udp.pcbs[i].state == Free && Gets(s'.udp.pcbs, i)
    && s'.udp.threads == s.udp.threads && s'.udp.pcbs == s.udp.pcbs[i := s'.udp.pcbs[i]]
  }

  /** Bind, send and receive on a socket are exactly those of its own block. */
  lemma ReachesOwnBlock(s: SockState, k: nat, i: nat, local: Endpoint, reach: Option<u32>, t: Tid, size: nat)
    requires Ownership(s) && Owns(s, k, i)
    ensures var (udp, r) := Next(-1, s.udp, DoBind(i, local));
            SockNext(s, SockBind(k, local)) == (SockState(s.socks, udp), r)
    ensures var (udp, r) := Next(-1, s.udp, DoSend(i, reach));
            SockNext(s, SockSend(k, reach)) == (SockState(s.socks, udp), r)
    ensures var (udp, r) := Next(-1, s.udp, DoReceive(t, i, size));
            SockNext(s, SockReceive(t, k, size)) == (SockState(s.socks, udp), r)
  {
    assert SockOk(s, s.socks[k]);
  }

  /** Without a block they fail and do nothing. */
  lemma NoBlockFails(s: SockState, id: int, local: Endpoint, reach: Option<u32>, t: Tid, size: nat)
    requires Ownership(s) && NoBlock(s, id) && t !in s.udp.threads
    ensures SockNext(s, SockBind(id, local)) == (s, Failed)
    ensures SockNext(s, SockSend(id, reach)) == (s, Failed)
    ensures SockNext(s, SockReceive(t, id, size)) == (s, Failed)
  {
    if 0 <= id < |s.socks| { assert SockOk(s, s.socks[id]); }
  }

  /** `sock_close` closes the socket's own block and makes the socket unused; any other id than a
      datagram socket's fails without effect. */
  lemma ClosesOwnBlock(s: SockState, id: int)
    requires Ownership(s) && Inv(s.udp)
    ensures var (s', r) := SockNext(s, SockClose(id));
            if !(0 <= id < MAX_SOCKS && s.socks[id].used && s.socks[id].kind == SOCK_DGRAM) then r == Failed && s' == s
            else
              && r == Done && !s'.socks[id].used && s'.socks == s.socks[id := CLEARED]
              && s'.udp == Next(-1, s.udp, DoClose(s.socks[id].desc)).0 && !Gets(s'.udp.pcbs, s.socks[id].desc)
  {
    if 0 <= id < MAX_SOCKS { assert SockOk(s, s.socks[id]); }
  }

  /** The call is made on socket `k`. */
  predicate CallOn(op: SockOp, k: int) {
    match op
    case SockClose(id) => id == k
    case SockBind(id, _) => id == k
    case SockSend(id, _) => id == k
    case SockReceive(_, id, _) => id == k
    case _ => false
  }

  /** A call on one socket changes neither another socket nor its block. */
  lemma Isolation(s: SockState, op: SockOp, k: int, k': nat, i': nat)
    requires Ownership(s) && CallOn(op, k) && Owns(s, k', i') && k != k'
    ensures var s' := SockNext(s, op).0;
            s'.socks[k'] == s.socks[k'] && s'.udp.pcbs[i'] == s.udp.pcbs[i'] && Owns(s', k', i')
  {
    assert SockOk(s, s.socks[k']);
    if 0 <= k < MAX_SOCKS && s.socks[k].used && s.socks[k].kind == SOCK_DGRAM {
      var i := s.socks[k].desc;
      assert SockOk(s, s.socks[k]) && Owns(s, k, i) && i != i';
      OtherBlock(s.udp, op, i, i');
    } else if 0 <= k < MAX_SOCKS {
      assert SockOk(s, s.socks[k]);
    }
  }

  /** A block operation leaves every other block alone. */
  lemma OtherBlock(s: State, op: SockOp, i: int, i': nat)
    requires Shape(s) && i' < PCB_SIZE && i != i'
    ensures Next(-1, s, DoClose(i)).0.pcbs[i'] == s.pcbs[i']
    ensures op.SockBind? ==> Next(-1, s, DoBind(i, op.local)).0.pcbs[i'] == s.pcbs[i']
    ensures op.SockSend? ==> Next(-1, s, DoSend(i, op.reach)).0.pcbs[i'] == s.pcbs[i']
    ensures op.SockReceive? ==> Next(-1, s, DoReceive(op.tid, i, op.size)).0.pcbs[i'] == s.pcbs[i']
  {
    if op.SockSend? { SendOther(s, i, op.reach, i'); }
  }

  lemma SendOther(s: State, i: int, reach: Option<u32>, i': nat)
    requires Shape(s) && i' < PCB_SIZE && i != i'
    ensures Send(s, i, reach).0.pcbs[i'] == s.pcbs[i']
  {
  }

  // ---------------------------------------------------------------- a datagram through a socket

  /** A datagram delivered to a socket's block is what the next receive on the socket returns, if
      nothing was queued; and a receiver asleep on the socket is woken with it. */
  lemma SocketGetsDatagram(s: SockState, k: nat, i: nat, dst: u32, port: u16, d: Datagram, t: Tid, size: nat)
    requires Ownership(s) && Inv(s.udp) && Owns(s, k, i) && Select(s.udp.pcbs, dst, port) == i
    requires s.udp.pcbs[i].queue == [] && t !in s.udp.threads
    ensures SockNext(SockNext(s, Deliver(dst, port, d)).0, SockReceive(t, k, size)).1 == Answer(d, size)
    ensures var (s1, r1) := SockNext(s, SockReceive(t, k, size));
            !s.udp.pcbs[i].ctx.interrupted ==>
              && r1 == Blocked
              && SockNext(SockNext(s1, Deliver(dst, port, d)).0, Wake(t)).1 == Answer(d, size)
  {
    assert SockOk(s, s.socks[k]);
    if !s.udp.pcbs[i].ctx.interrupted { AsleepGets(s.udp, i, dst, port, d, t, size); }
  }

  lemma AsleepGets(s: State, i: nat, dst: u32, port: u16, d: Datagram, t: Tid, size: nat)
    requires Inv(s) && Gets(s.pcbs, i) && Select(s.pcbs, dst, port) == i && s.pcbs[i].queue == [] && t !in s.threads
    requires !s.pcbs[i].ctx.interrupted
    ensures var (s1, r1) := Next(-1, s, DoReceive(t, i, size));
            && r1 == Blocked
            && Next(-1, Next(-1, s1, DoInput(dst, port, d)).0, DoResume(t)).1 == Answer(d, size)
  {
    var s1 := Next(-1, s, DoReceive(t, i, size)).0;
    FetchInv(s, t, i, size);
    SameMatches(s.pcbs, s1.pcbs, dst, port);
    SleeperGetsDatagram(s1, t, dst, port, d);
  }

  /** Selection looks at state and endpoint only. */
  lemma SameMatches(a: seq<Pcb>, b: seq<Pcb>, dst: u32, port: u16)
    requires |a| == |b| && forall j :: 0 <= j < |a| ==> b[j].state == a[j].state && b[j].local == a[j].local
    ensures Select(b, dst, port) == Select(a, dst, port)
  {
    var i, j := Select(a, dst, port), Select(b, dst, port);
    assert i < |a| ==> Matches(b[i], dst, port);
    assert j < |b| ==> Matches(a[j], dst, port);
  }

  /** A network interrupt makes a receiver asleep on a socket return with an error. */
  lemma SocketInterrupted(s: SockState, t: Tid)
    requires Ownership(s) && Inv(s.udp) && t in s.udp.threads && Gets(s.udp.pcbs, s.udp.threads[t].pcb)
    ensures SockNext(SockNext(s, Interrupt).0, Wake(t)).1 == Failed
  {
  }

  /** A run is its steps one after the other. */
  lemma {:induction false} SockRunAppend(s: SockState, ops: seq<SockOp>, op: SockOp)
    requires SockShape(s)
    ensures SockRun(s, ops + [op]) == SockNext(SockRun(s, ops), op).0
    decreases |ops|
  {
    if ops == [] {
      assert [op][1..] == [];
    } else {
      assert (ops + [op])[1..] == ops[1..] + [op];
      SockRunAppend(SockNext(s, ops[0]).0, ops[1..], op);
    }
  }
}
