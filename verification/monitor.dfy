/** UDP control blocks as a monitor (src/lib/udp.c, handler/synchronize.c).

    Every region of the C code that runs under the one mutex is one step of `Next`.
    `pthread_cond_wait` gives up the mutex in the middle of `sched_sleep`, so a call of
    `udp_recvfrom` is split there: `Receive` runs up to the wait, `Resume` runs from the
    wait to the next wait or to the return. A broadcast marks the sleepers it finds; a
    `Resume` of an unmarked sleeper is a spurious wakeup, which POSIX allows.

    A schedule is a sequence of operations; every interleaving of threads is one. */
module UdpMonitor {
  import opened Options
  import opened Words

  const PCB_SIZE := 16
  const PORT_MIN := 49152
  const PORT_MAX := 65535
  const ADDR_ANY: u32 := 0

  type Tid = nat

  /** Address and port are kept in network byte order, as in the C struct. */
  datatype Endpoint = Endpoint(address: u32, port: u16)

  const UNBOUND := Endpoint(0, 0)

  datatype Datagram = Datagram(foreign: Endpoint, data: seq<u8>)

  datatype PcbState = Free | Open | Closing

  datatype Ctx = Ctx(interrupted: bool, wc: int)

  datatype Pcb = Pcb(state: PcbState, local: Endpoint, queue: seq<Datagram>, ctx: Ctx)

  /** A thread inside `pthread_cond_wait` on behalf of `udp_recvfrom`. */
  datatype Wait = Wait(pcb: nat, signalled: bool, size: nat)

  datatype State = State(pcbs: seq<Pcb>, threads: map<Tid, Wait>)

  datatype Op =
    | DoOpen
    | DoClose(id: int)
    | DoBind(id: int, local: Endpoint)
    | DoSend(id: int, reach: Option<u32>)
    | DoInput(dst: u32, port: u16, datagram: Datagram)
    | DoInterrupt
    | DoReceive(tid: Tid, id: int, size: nat)
    | DoResume(tid: Tid)

  datatype Result =
    | Failed
    | Done
    | Opened(id: nat)
    | Sending(local: Endpoint)
    | Received(foreign: Endpoint, bytes: seq<u8>)
    | Blocked
    | Skipped

  const INIT := State(seq(PCB_SIZE, _ => Pcb(Free, UNBOUND, [], Ctx(false, 0))), map[])

  // ---------------------------------------------------------------- table scans

  predicate Matches(p: Pcb, addr: u32, port: u16) {
    p.state == Open && (p.local.address == ADDR_ANY || p.local.address == addr) && p.local.port == port
  }

  /** `udp_pcb_select` from slot `k` on; `|pcbs|` stands for NULL. */
  function SelectFrom(pcbs: seq<Pcb>, addr: u32, port: u16, k: nat): (i: nat)
    requires k <= |pcbs|
    ensures k <= i <= |pcbs| && (i < |pcbs| ==> Matches(pcbs[i], addr, port))
    ensures forall j :: k <= j < i ==> !Matches(pcbs[j], addr, port)
    decreases |pcbs| - k
  {
    if k == |pcbs| || Matches(pcbs[k], addr, port) then k else SelectFrom(pcbs, addr, port, k + 1)
  }

  function Select(pcbs: seq<Pcb>, addr: u32, port: u16): (i: nat)
    ensures i <= |pcbs|
  {
    SelectFrom(pcbs, addr, port, 0)
  }

  /** The slot `udp_pcb_alloc` takes, searching from slot `k`. */
  function AllocFrom(pcbs: seq<Pcb>, k: nat): (i: nat)
    requires k <= |pcbs|
    ensures k <= i <= |pcbs| && (i < |pcbs| ==> pcbs[i].state == Free)
    ensures forall j :: k <= j < i ==> pcbs[j].state != Free
    decreases |pcbs| - k
  {
    if k == |pcbs| || pcbs[k].state == Free then k else AllocFrom(pcbs, k + 1)
  }

  /** `udp_pcb_get`. */
  predicate Gets(pcbs: seq<Pcb>, id: int) {
    0 <= id < |pcbs| && pcbs[id].state == Open
  }

  /** The port search of `udp_sendto` from candidate `p`; 65536 stands for exhaustion. */
  function SearchPort(pcbs: seq<Pcb>, addr: u32, p: nat): (q: nat)
    requires p <= PORT_MAX + 1
    ensures p <= q <= PORT_MAX + 1
    ensures q <= PORT_MAX ==> Select(pcbs, addr, Hton16(Little, q)) == |pcbs|
    ensures forall r :: p <= r < q ==> Select(pcbs, addr, Hton16(Little, r)) < |pcbs|
    decreases PORT_MAX + 1 - p
  {
    if p > PORT_MAX || Select(pcbs, addr, Hton16(Little, p)) == |pcbs| then p
    else SearchPort(pcbs, addr, p + 1)
  }

  // ---------------------------------------------------------------- condition variables

  /** `pthread_cond_broadcast` on the condition variable of slot `i`. */
  function Broadcast(threads: map<Tid, Wait>, i: nat): map<Tid, Wait> {
    map t | t in threads ::
      if threads[t].pcb == i then threads[t].(signalled := true) else threads[t]
  }

  /** `sched_ctx_destroy`: `busy` is what `pthread_cond_destroy` reports while threads
      wait. The caller takes -1 to mean that. */
  function Destroy(busy: int, ctx: Ctx): int {
    if ctx.wc > 0 then busy else 0
  }

  /** `udp_pcb_release`. */
  function Release(busy: int, s: State, i: nat): State
    requires i < |s.pcbs|
  {
    var p := s.pcbs[i];
    if Destroy(busy, p.ctx) == -1 then
      State(s.pcbs[i := p.(state := Closing)], Broadcast(s.threads, i))
    else
      State(s.pcbs[i := Pcb(Free, UNBOUND, [], p.ctx)], s.threads)
  }

  /** One turn of the loop in `udp_recvfrom`: take the head of the queue, or go to sleep. */
  function Fetch(s: State, t: Tid, i: nat, size: nat): (State, Result)
    requires i < |s.pcbs|
  {
    var p := s.pcbs[i];
    if p.queue != [] then
      var d := p.queue[0];
      (s.(pcbs := s.pcbs[i := p.(queue := p.queue[1..])]), Received(d.foreign, Truncated(d.data, size)))
    else if p.ctx.interrupted then
      (s, Failed)
    else
      (State(s.pcbs[i := p.(ctx := p.ctx.(wc := p.ctx.wc + 1))], s.threads[t := Wait(i, false, size)]), Blocked)
  }

  function Truncated(data: seq<u8>, size: nat): seq<u8> {
    if size < |data| then data[..size] else data
  }

  /** From the return of `pthread_cond_wait` to the next wait or the return of the call. */
  function Resume(busy: int, s: State, t: Tid): (State, Result)
    requires t in s.threads && s.threads[t].pcb < |s.pcbs|
  {
    var w := s.threads[t];
    var p := s.pcbs[w.pcb];
    var wc := p.ctx.wc - 1;
    var awake := State(s.pcbs[w.pcb := p.(ctx := Ctx(p.ctx.interrupted && wc != 0, wc))], s.threads - {t});
    if p.ctx.interrupted then
      (awake, Failed)
    else if p.state == Closing then
      (Release(busy, awake, w.pcb), Failed)
    else
      Fetch(awake, t, w.pcb, w.size)
  }

  function InterruptAll(s: State): State
    requires forall t :: t in s.threads ==> s.threads[t].pcb < |s.pcbs|
  {
    State(seq(|s.pcbs|, i requires 0 <= i < |s.pcbs| => Interrupted(s.pcbs[i])),
          map t | t in s.threads ::
            if s.pcbs[s.threads[t].pcb].state == Open then s.threads[t].(signalled := true) else s.threads[t])
  }

  function Interrupted(p: Pcb): Pcb {
    if p.state == Open then p.(ctx := p.ctx.(interrupted := true)) else p
  }

  /** The critical section of `udp_sendto`: choose the local address and port. `reach` is
      the unicast address of the interface that reaches the destination, if there is one. */
  function Send(s: State, id: int, reach: Option<u32>): (State, Result) {
    if !Gets(s.pcbs, id) then (s, Failed)
    else
      var p := s.pcbs[id];
      if p.local.address == ADDR_ANY && reach.None? then (s, Failed)
      else
        var addr := if p.local.address == ADDR_ANY then reach.value else p.local.address;
        if p.local.port != 0 then (s, Sending(Endpoint(addr, p.local.port)))
        else
          var q := SearchPort(s.pcbs, addr, PORT_MIN);
          if q > PORT_MAX then (s, Failed)
          else
            var port := Hton16(Little, q);
            (s.(pcbs := s.pcbs[id := p.(local := p.local.(port := port))]), Sending(Endpoint(addr, port)))
  }

  // ---------------------------------------------------------------- steps and runs

  /** Every sleeper sleeps on an existing slot. */
  predicate Shape(s: State) {
    |s.pcbs| == PCB_SIZE && forall t :: t in s.threads ==> s.threads[t].pcb < PCB_SIZE
  }

  /** One step. An operation no thread can make here (a resume of a thread that is not
      waiting, a receive by one that is) changes nothing. */
  function Next(busy: int, s: State, op: Op): (r: (State, Result))
    requires Shape(s)
    ensures Shape(r.0)
  {
    match op
    case DoOpen =>
      var i := AllocFrom(s.pcbs, 0);
      if i == |s.pcbs| then (s, Failed)
      else (s.(pcbs := s.pcbs[i := s.pcbs[i].(state := Open, ctx := Ctx(false, 0))]), Opened(i))
    case DoClose(id) =>
      if Gets(s.pcbs, id) then (Release(busy, s, id), Done) else (s, Failed)
    case DoBind(id, local) =>
      if Gets(s.pcbs, id) && Select(s.pcbs, local.address, local.port) == |s.pcbs| then
        (s.(pcbs := s.pcbs[id := s.pcbs[id].(local := local)]), Done)
      else (s, Failed)
    case DoSend(id, reach) => Send(s, id, reach)
    case DoInput(dst, port, d) =>
      var i := Select(s.pcbs, dst, port);
      if i == |s.pcbs| then (s, Failed)
      else (State(s.pcbs[i := s.pcbs[i].(queue := s.pcbs[i].queue + [d])], Broadcast(s.threads, i)), Done)
    case DoInterrupt => (InterruptAll(s), Done)
    case DoReceive(t, id, size) =>
      if t in s.threads then (s, Skipped)
      else if Gets(s.pcbs, id) then Fetch(s, t, id, size) else (s, Failed)
    case DoResume(t) =>
      if t in s.threads then Resume(busy, s, t) else (s, Skipped)
  }

  function Run(busy: int, s: State, ops: seq<Op>): (r: State)
    requires Shape(s)
    ensures Shape(r)
    decreases |ops|
  {
    if ops == [] then s else Run(busy, Next(busy, s, ops[0]).0, ops[1..])
  }

  // ---------------------------------------------------------------- the invariant

  /** The threads inside the wait on slot `i`. */
  ghost function Waiters(threads: map<Tid, Wait>, i: nat): set<Tid> {
    set t | t in threads && threads[t].pcb == i
  }

  ghost predicate CountsWaiters(s: State) {
    forall i :: 0 <= i < |s.pcbs| ==> s.pcbs[i].ctx.wc == |Waiters(s.threads, i)|
  }

  predicate FreeIsClean(p: Pcb) {
    p.state == Free ==> p.ctx.wc == 0 && p.local == UNBOUND && p.queue == []
  }

  /** Nothing a sleeper on this slot should have been woken for. */
  predicate NothingPending(p: Pcb) {
    p.state == Open && p.queue == [] && !p.ctx.interrupted
  }

  ghost predicate NoLostWakeup(s: State)
    requires Shape(s)
  {
    forall t :: t in s.threads && !s.threads[t].signalled ==> NothingPending(s.pcbs[s.threads[t].pcb])
  }

  predicate SamePort(p: Pcb, q: Pcb) {
    p.state == Open && q.state == Open && p.local == q.local && p.local.port != 0
  }

  ghost predicate PortsDistinct(pcbs: seq<Pcb>) {
    forall i, j :: 0 <= i < |pcbs| && 0 <= j < |pcbs| && SamePort(pcbs[i], pcbs[j]) ==> i == j
  }

  ghost predicate Inv(s: State) {
    && Shape(s)
    && CountsWaiters(s)
    && (forall i :: 0 <= i < |s.pcbs| ==> FreeIsClean(s.pcbs[i]))
    && NoLostWakeup(s)
    && PortsDistinct(s.pcbs)
  }

  lemma InitInv()
    ensures Inv(INIT)
  {
  }

  // ---------------------------------------------------------------- each step keeps it

  lemma SameSleepers(m: map<Tid, Wait>, m': map<Tid, Wait>)
    requires m.Keys == m'.Keys && forall t :: t in m ==> m'[t].pcb == m[t].pcb
    ensures forall i: nat :: Waiters(m', i) == Waiters(m, i)
  {
  }

  lemma SleeperAdded(m: map<Tid, Wait>, t: Tid, w: Wait)
    requires t !in m
    ensures forall i: nat :: |Waiters(m[t := w], i)| == |Waiters(m, i)| + if i == w.pcb then 1 else 0
  {
    forall i: nat ensures |Waiters(m[t := w], i)| == |Waiters(m, i)| + if i == w.pcb then 1 else 0 {
      assert Waiters(m[t := w], i) == Waiters(m, i) + if i == w.pcb then {t} else {};
    }
  }

  lemma SleeperRemoved(m: map<Tid, Wait>, t: Tid)
    requires t in m
    ensures forall i: nat :: |Waiters(m - {t}, i)| == |Waiters(m, i)| - if i == m[t].pcb then 1 else 0
  {
    forall i: nat ensures |Waiters(m - {t}, i)| == |Waiters(m, i)| - if i == m[t].pcb then 1 else 0 {
      assert Waiters(m, i) == Waiters(m - {t}, i) + if i == m[t].pcb then {t} else {};
    }
  }

  lemma NobodyOnEmptySlot(s: State, i: nat)
    requires Inv(s) && i < PCB_SIZE && s.pcbs[i].ctx.wc <= 0
    ensures forall t :: t in s.threads ==> s.threads[t].pcb != i
  {
    assert Waiters(s.threads, i) == {};
    assert forall t :: t in s.threads ==> t in Waiters(s.threads, s.threads[t].pcb);
  }

  lemma ReleaseInv(s: State, i: nat)
    requires Inv(s) && i < PCB_SIZE && s.pcbs[i].state != Free
    ensures Inv(Release(-1, s, i))
  {
    SameSleepers(s.threads, Release(-1, s, i).threads);
    if s.pcbs[i].ctx.wc <= 0 {
      NobodyOnEmptySlot(s, i);
    }
  }

  lemma FetchInv(s: State, t: Tid, i: nat, size: nat)
    requires Inv(s) && i < PCB_SIZE && s.pcbs[i].state == Open && t !in s.threads
    ensures Inv(Fetch(s, t, i, size).0)
  {
    SleeperAdded(s.threads, t, Wait(i, false, size));
  }

  lemma ResumeInv(s: State, t: Tid)
    requires Inv(s) && t in s.threads
    ensures Inv(Resume(-1, s, t).0)
  {
    var w := s.threads[t];
    var p := s.pcbs[w.pcb];
    assert t in Waiters(s.threads, w.pcb);
    var wc := p.ctx.wc - 1;
    var awake := State(s.pcbs[w.pcb := p.(ctx := Ctx(p.ctx.interrupted && wc != 0, wc))], s.threads - {t});
    SleeperRemoved(s.threads, t);
    assert Inv(awake);
    if !p.ctx.interrupted {
      if p.state == Closing {
        ReleaseInv(awake, w.pcb);
      } else {
        FetchInv(awake, t, w.pcb, w.size);
      }
    }
  }

  lemma SendInv(s: State, id: int, reach: Option<u32>)
    requires Inv(s)
    ensures Inv(Send(s, id, reach).0)
  {
  }

  lemma OpenInv(s: State)
    requires Inv(s)
    ensures Inv(Next(-1, s, DoOpen).0)
  {
  }

  lemma BindInv(s: State, id: int, local: Endpoint)
    requires Inv(s)
    ensures Inv(Next(-1, s, DoBind(id, local)).0)
  {
  }

  lemma InputInv(s: State, dst: u32, port: u16, d: Datagram)
    requires Inv(s)
    ensures Inv(Next(-1, s, DoInput(dst, port, d)).0)
  {
    SameSleepers(s.threads, Next(-1, s, DoInput(dst, port, d)).0.threads);
  }

  lemma InterruptInv(s: State)
    requires Inv(s)
    ensures Inv(InterruptAll(s))
  {
    var s' := InterruptAll(s);
    SameSleepers(s.threads, s'.threads);
    assert forall i, j :: 0 <= i < PCB_SIZE && 0 <= j < PCB_SIZE && SamePort(s'.pcbs[i], s'.pcbs[j]) ==>
             SamePort(s.pcbs[i], s.pcbs[j]);
  }

  /** Every step keeps the invariant, if destroying a condition variable that has
      waiters reports -1. */
  lemma NextInv(s: State, op: Op)
    requires Inv(s)
    ensures Inv(Next(-1, s, op).0)
  {
    match op
    case DoOpen => OpenInv(s);
    case DoClose(id) => if Gets(s.pcbs, id) { ReleaseInv(s, id); }
    case DoBind(id, local) => BindInv(s, id, local);
    case DoSend(id, reach) => SendInv(s, id, reach);
    case DoInput(dst, port, d) => InputInv(s, dst, port, d);
    case DoInterrupt => InterruptInv(s);
    case DoReceive(t, id, size) =>
      if t !in s.threads && Gets(s.pcbs, id) { FetchInv(s, t, id, size); }
    case DoResume(t) => if t in s.threads { ResumeInv(s, t); }
  }

  lemma {:induction false} RunInv(s: State, ops: seq<Op>)
    requires Inv(s)
    ensures Inv(Run(-1, s, ops))
    decreases |ops|
  {
    if ops == [] {
    } else {
      NextInv(s, ops[0]);
      RunInv(Next(-1, s, ops[0]).0, ops[1..]);
    }
  }
}
