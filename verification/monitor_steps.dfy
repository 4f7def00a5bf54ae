/** What a caller of the UDP operations can rely on, step by step: what each answers, which
    control block it changes and how, and that everything else stays. */
module UdpSteps {
  import opened Options
  import opened Words
  import opened UdpMonitor
  import opened UdpRuns

  /** Only block `i` may differ, and no thread does. */
  ghost predicate OnlyBlock(s: State, s': State, i: nat) {
    && s'.threads == s.threads && |s'.pcbs| == |s.pcbs|
    && forall j :: 0 <= j < |s.pcbs| && j != i ==> s'.pcbs[j] == s.pcbs[j]
  }

  /** The threads are the same, and those that wait on block `i`, and no others, are signalled. */
  ghost predicate Wakes(s: State, s': State, i: nat) {
    && s'.threads.Keys == s.threads.Keys
    && forall t :: t in s.threads ==>
         s'.threads[t] == s.threads[t].(signalled := s.threads[t].signalled || s.threads[t].pcb == i)
  }

  // ---------------------------------------------------------------- open, close, bind

  /** `udp_open` hands out a clean block that was free, and fails only if none is. */
  lemma OpensClean(s: State)
    requires Inv(s)
    ensures var (s', r) := Next(-1, s, DoOpen);
            if forall j :: 0 <= j < PCB_SIZE ==> s.pcbs[j].state != Free then r == Failed && s' == s
            else
              && r.Opened? && r.id < PCB_SIZE && s.pcbs[r.id].state == Free && OnlyBlock(s, s', r.id)
              && s'.pcbs[r.id] == Pcb(Open, Endpoint(ADDR_ANY, 0), [], Ctx(false, 0)) && Gets(s'.pcbs, r.id)
              && forall j :: 0 <= j < r.id ==> s.pcbs[j].state != Free
  {
    var i := AllocFrom(s.pcbs, 0);
    if i < PCB_SIZE { assert FreeIsClean(s.pcbs[i]); }
  }

  /** `udp_close` takes the block away from the user at once: free and clean if nobody waits,
      else closing with every waiter signalled. */
  lemma ClosesBlock(s: State, id: int)
    requires Inv(s)
    ensures var (s', r) := Next(-1, s, DoClose(id));
            if !Gets(s.pcbs, id) then r == Failed && s' == s
            else
              && r == Done && !Gets(s'.pcbs, id)
              && if s.pcbs[id].ctx.wc == 0 then
                   OnlyBlock(s, s', id) && s'.pcbs[id] == Pcb(Free, Endpoint(ADDR_ANY, 0), [], s.pcbs[id].ctx)
                 else
                   Wakes(s, s', id) && s'.pcbs == s.pcbs[id := s.pcbs[id].(state := Closing)]
  {
  }

  /** `udp_bind` gives the block its endpoint, and datagrams to that endpoint then reach this
      block; it is refused exactly if the block is not open or a block already takes them. */
  lemma BindsBlock(s: State, id: int, local: Endpoint)
    requires Inv(s)
    ensures var (s', r) := Next(-1, s, DoBind(id, local));
            if !Gets(s.pcbs, id) || exists j :: 0 <= j < PCB_SIZE && Matches(s.pcbs[j], local.address, local.port) then
              r == Failed && s' == s
            else
              && r == Done && OnlyBlock(s, s', id)
              && s'.pcbs[id] == Pcb(Open, local, s.pcbs[id].queue, s.pcbs[id].ctx)
              && Select(s'.pcbs, local.address, local.port) == id
  {
  }

  // ---------------------------------------------------------------- send

  /** A bound sender keeps its port, and sending changes nothing. */
  lemma BoundPortIsKept(s: State, id: int, reach: Option<u32>)
    requires Inv(s) && Gets(s.pcbs, id) && s.pcbs[id].local.port != 0
    ensures var (s', r) := Next(-1, s, DoSend(id, reach));
            s' == s && (r != Failed ==> r.Sending? && r.local.port == s.pcbs[id].local.port)
  {
  }

  /** An unbound one gets an ephemeral port `q` that nobody takes at its address, and keeps it:
      only the block's port changes. */
  lemma UnboundGetsPort(s: State, id: int, reach: Option<u32>) returns (q: u16)
    requires Inv(s) && Gets(s.pcbs, id) && s.pcbs[id].local.port == 0 && Next(-1, s, DoSend(id, reach)).1 != Failed
    ensures var (s', r) := Next(-1, s, DoSend(id, reach));
            && r.Sending? && 49152 <= q <= 65535 && r.local.port == Hton16(Little, q)
            && (forall j :: 0 <= j < PCB_SIZE ==> !Matches(s.pcbs[j], r.local.address, r.local.port))
            && s' == s.(pcbs := s.pcbs[id := s.pcbs[id].(local := Endpoint(s.pcbs[id].local.address, r.local.port))])
  {
    var bound := s.pcbs[id].local.address;
    var addr := if bound == ADDR_ANY then reach.value else bound;
    SendsFrom(s, id, reach, addr);
    q := SearchPort(s.pcbs, addr, PORT_MIN);
    NobodyAtFound(s.pcbs, addr, q);
  }

  lemma SendsFrom(s: State, id: int, reach: Option<u32>, addr: u32)
    requires Shape(s) && Gets(s.pcbs, id) && s.pcbs[id].local.port == 0 && Next(-1, s, DoSend(id, reach)).1 != Failed
    requires s.pcbs[id].local.address == ADDR_ANY ==> reach.Some?
    requires addr == if s.pcbs[id].local.address == ADDR_ANY then reach.value else s.pcbs[id].local.address
    ensures var q := SearchPort(s.pcbs, addr, PORT_MIN);
            && q <= PORT_MAX
            && var p := s.pcbs[id];
               var local := Endpoint(p.local.address, Hton16(Little, q));
               Next(-1, s, DoSend(id, reach))
               == (s.(pcbs := s.pcbs[id := p.(local := local)]), Sending(Endpoint(addr, Hton16(Little, q))))
  {
  }

  lemma NobodyAtFound(pcbs: seq<Pcb>, addr: u32, q: nat)
    requires q <= PORT_MAX && Select(pcbs, addr, Hton16(Little, q)) == |pcbs|
    ensures forall j :: 0 <= j < |pcbs| ==> !Matches(pcbs[j], addr, Hton16(Little, q))
  {
  }

  /** So a second send uses the same port. */
  lemma PortIsStable(s: State, id: int, reach: Option<u32>, reach': Option<u32>)
    requires Inv(s)
    ensures var (s1, r1) := Next(-1, s, DoSend(id, reach));
            var (s2, r2) := Next(-1, s1, DoSend(id, reach'));
            r1.Sending? && r2.Sending? ==> r2.local.port == r1.local.port && s2 == s1
  {
    SendInv(s, id, reach);
    SendFailsIff(s, id, reach);
  }

  // ---------------------------------------------------------------- receive

  /** The first datagram of the queue is taken: answered, cut to the caller's size, and gone. */
  ghost predicate Takes(s: State, s': State, r: Result, i: nat, size: nat)
    requires i < |s.pcbs| && s.pcbs[i].queue != []
  {
    && r == Answer(s.pcbs[i].queue[0], size) && |s'.pcbs| == |s.pcbs|
    && s'.pcbs[i].queue == s.pcbs[i].queue[1..] && s'.pcbs[i].state == Open && s'.pcbs[i].local == s.pcbs[i].local
    && forall j :: 0 <= j < |s.pcbs| && j != i ==> s'.pcbs[j] == s.pcbs[j]
  }

  /** `udp_recvfrom` takes the head of any nonempty queue, fails on an empty one that is
      interrupted, and otherwise sleeps, unsignalled, counted, and with its buffer size. */
  lemma ReceiveTakesOrSleeps(s: State, t: Tid, id: int, size: nat)
    requires Inv(s) && t !in s.threads
    ensures var (s', r) := Next(-1, s, DoReceive(t, id, size));
            if !Gets(s.pcbs, id) then r == Failed && s' == s
            else if s.pcbs[id].queue != [] then
              Takes(s, s', r, id, size) && s'.threads == s.threads && s'.pcbs[id].ctx == s.pcbs[id].ctx
            else if s.pcbs[id].ctx.interrupted then r == Failed && s' == s
            else
              && r == Blocked && s'.threads == s.threads[t := Wait(id, false, size)]
              && s'.pcbs == s.pcbs[id := s.pcbs[id].(ctx := Ctx(false, s.pcbs[id].ctx.wc + 1))]
  {
  }

  /** A woken receiver of an open, uninterrupted block takes the head of the queue and leaves
      the wait; with an empty queue it sleeps again as it was, unsignalled. */
  lemma WokenTakesOrSleeps(s: State, t: Tid)
    requires Inv(s) && t in s.threads
    requires var p := s.pcbs[s.threads[t].pcb]; p.state == Open && !p.ctx.interrupted
    ensures var w := s.threads[t];
            var (s', r) := Next(-1, s, DoResume(t));
            if s.pcbs[w.pcb].queue != [] then
              && Takes(s, s', r, w.pcb, w.size) && s'.threads == s.threads - {t}
              && s'.pcbs[w.pcb].ctx == Ctx(false, s.pcbs[w.pcb].ctx.wc - 1)
            else
              r == Blocked && s'.pcbs == s.pcbs && s'.threads == s.threads[t := w.(signalled := false)]
  {
    var w := s.threads[t];
    assert (s.threads - {t})[t := w.(signalled := false)] == s.threads[t := w.(signalled := false)];
  }

  /** A sleeping receiver gets the datagram that arrives for its block: the arrival signals it,
      and if it is the next to run it returns with that datagram, the queue being empty again. */
  lemma SleeperGetsDatagram(s: State, t: Tid, dst: u32, port: u16, d: Datagram)
    requires Inv(s) && t in s.threads && !s.threads[t].signalled
    requires Select(s.pcbs, dst, port) == s.threads[t].pcb
    ensures var w := s.threads[t];
            var s1 := Next(-1, s, DoInput(dst, port, d)).0;
            t in s1.threads && s1.threads[t].signalled
            && var (s2, r) := Next(-1, s1, DoResume(t));
               r == Answer(d, w.size) && t !in s2.threads && s2.pcbs[w.pcb].queue == []
  {
    var s1 := Next(-1, s, DoInput(dst, port, d)).0;
    InputInv(s, dst, port, d);
    assert NothingPending(s.pcbs[s.threads[t].pcb]);
    WokenTakesOrSleeps(s1, t);
  }

  // ---------------------------------------------------------------- arrival and interrupt

  /** An arrival is appended to the lowest match and signals its waiters, and nothing else
      happens. */
  lemma ArrivalAppends(s: State, dst: u32, port: u16, d: Datagram)
    requires Inv(s)
    ensures var (s', r) := Next(-1, s, DoInput(dst, port, d));
            if forall j :: 0 <= j < PCB_SIZE ==> !Matches(s.pcbs[j], dst, port) then r == Failed && s' == s
            else
              r == Done && exists i :: 0 <= i < PCB_SIZE && LowestMatch(s.pcbs, dst, port, i)
                                       && s'.pcbs == Enqueued(s.pcbs, i, d) && Wakes(s, s', i)
  {
    var i := Select(s.pcbs, dst, port);
    if i < PCB_SIZE {
      var s' := Next(-1, s, DoInput(dst, port, d)).0;
      assert LowestMatch(s.pcbs, dst, port, i) && s'.pcbs == Enqueued(s.pcbs, i, d) && Wakes(s, s', i);
    }
  }

  /** A network interrupt sets the flag of every open block and signals its waiters, and touches
      nothing else of any block. */
  lemma InterruptFlagsOpen(s: State)
    requires Inv(s)
    ensures var (s', r) := Next(-1, s, DoInterrupt);
            && r == Done && |s'.pcbs| == PCB_SIZE && s'.threads.Keys == s.threads.Keys
            && (forall j :: 0 <= j < PCB_SIZE ==>
                  var p := s.pcbs[j];
                  s'.pcbs[j] == Pcb(p.state, p.local, p.queue, Ctx(p.ctx.interrupted || p.state == Open, p.ctx.wc)))
            && (forall t :: t in s.threads ==>
                  var w := s.threads[t];
                  s'.threads[t] == Wait(w.pcb, w.signalled || s.pcbs[w.pcb].state == Open, w.size))
  {
  }
}
