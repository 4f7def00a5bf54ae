/** What holds of the UDP monitor over whole runs: no lost wakeup, the hand-over of a
    closing slot to its last waiter, the interrupt protocol, and the port table. */
module UdpRuns {
  import opened Options
  import opened Words
  import opened UdpMonitor

  // ---------------------------------------------------------------- every reachable state

  /** In every reachable state a thread asleep and not signalled waits on an open slot
      with an empty queue and no pending interrupt. */
  lemma NoWakeupIsLost(ops: seq<Op>, t: Tid)
    requires var s := Run(-1, INIT, ops); t in s.threads && !s.threads[t].signalled
    ensures var s := Run(-1, INIT, ops);
            var p := s.pcbs[s.threads[t].pcb];
            p.state == Open && p.queue == [] && !p.ctx.interrupted
  {
    InitInv();
    RunInv(INIT, ops);
  }

  /** In every reachable state the wait count of a slot is the number of threads inside
      the wait, and a free slot is unbound, empty and unwaited. */
  lemma CountsAndFreeSlots(ops: seq<Op>, i: nat)
    requires i < PCB_SIZE
    ensures var s := Run(-1, INIT, ops);
            && s.pcbs[i].ctx.wc == |Waiters(s.threads, i)|
            && (s.pcbs[i].state == Free ==>
                  s.pcbs[i].ctx.wc == 0 && s.pcbs[i].local == UNBOUND && s.pcbs[i].queue == [])
  {
    InitInv();
    RunInv(INIT, ops);
    assert FreeIsClean(Run(-1, INIT, ops).pcbs[i]);
  }

  /** Closing an open slot keeps the invariant exactly when destroying the condition
      variable reports -1 for waiters, or there are none. */
  lemma CloseNeedsMinusOne(busy: int, s: State, id: int)
    requires Inv(s) && Gets(s.pcbs, id)
    ensures Inv(Next(busy, s, DoClose(id)).0) <==> busy == -1 || s.pcbs[id].ctx.wc == 0
  {
    var s' := Next(busy, s, DoClose(id)).0;
    if busy == -1 || s.pcbs[id].ctx.wc == 0 {
      assert s.pcbs[id].ctx.wc == |Waiters(s.threads, id)|;
      assert s' == Next(-1, s, DoClose(id)).0;
      NextInv(s, DoClose(id));
    } else {
      assert s.pcbs[id].ctx.wc == |Waiters(s.threads, id)|;
      assert !FreeIsClean(s'.pcbs[id]);
    }
  }

  /** The failure: if destroying reports the error number of a busy condition variable, a
      close frees the slot under a sleeping receiver, whom nothing wakes. */
  lemma BusyRun()
    ensures var s := Run(16, INIT, [DoOpen, DoReceive(0, 0, 1), DoClose(0)]);
            && s.pcbs[0].state == Free && s.pcbs[0].ctx.wc == 1
            && s.threads == map[0 := Wait(0, false, 1)]
  {
  }

  /** The first control block opened is block 0, unbound. */
  lemma FirstOpen() returns (s: State)
    ensures s == Next(-1, INIT, DoOpen).0 && Inv(s) && Gets(s.pcbs, 0) && s.pcbs[0].local.address == ADDR_ANY
  {
    s := Next(-1, INIT, DoOpen).0;
    InitInv();
    NextInv(INIT, DoOpen);
  }

  // ---------------------------------------------------------------- closing with waiters

  /** A slot that will be freed by the last of its waiters. */
  ghost predicate HandingOver(s: State, i: nat) {
    i < |s.pcbs| && s.pcbs[i].state == Closing && !s.pcbs[i].ctx.interrupted && s.pcbs[i].ctx.wc > 0
  }

  /** A slot nobody will free. */
  ghost predicate Leaked(s: State, i: nat) {
    i < |s.pcbs| && s.pcbs[i].state == Closing && (s.pcbs[i].ctx.interrupted || s.pcbs[i].ctx.wc == 0)
  }

  predicate ResumesWaiter(s: State, op: Op, i: nat) {
    op.DoResume? && op.tid in s.threads && s.threads[op.tid].pcb == i
  }

  /** A closing slot is never selected, fetched, rebound, interrupted or reallocated: only
      one of its own waiters changes it, and nobody joins them. */
  lemma ClosingIsUntouched(s: State, op: Op, i: nat)
    requires Inv(s) && i < PCB_SIZE && s.pcbs[i].state == Closing && !ResumesWaiter(s, op, i)
    ensures var s' := Next(-1, s, op).0;
            s'.pcbs[i] == s.pcbs[i] && Waiters(s'.threads, i) == Waiters(s.threads, i)
  {
    match op
    case DoResume(t) => if t in s.threads { ResumeElsewhere(s, t, i); }
    case DoInput(dst, port, d) => InputElsewhere(s, dst, port, d, i);
    case DoInterrupt => InterruptElsewhere(s, i);
    case DoClose(id) => if Gets(s.pcbs, id) { ReleaseElsewhere(s, id, i); }
    case DoSend(id, reach) => SendElsewhere(s, id, reach, i);
    case DoReceive(t, id, size) => if Gets(s.pcbs, id) && t !in s.threads { FetchOther(s, t, id, size, i); }
    case DoOpen =>
    case DoBind(_, _) =>
  }

  // What the operations do to a slot that is not open, or not theirs.

  lemma InputElsewhere(s: State, dst: u32, port: u16, d: Datagram, i: nat)
    requires Shape(s) && i < PCB_SIZE
    ensures var s' := Next(-1, s, DoInput(dst, port, d)).0;
            && Waiters(s'.threads, i) == Waiters(s.threads, i) && s'.pcbs[i].ctx == s.pcbs[i].ctx
            && (s.pcbs[i].state != Open ==> s'.pcbs[i] == s.pcbs[i])
  {
    SameSleepers(s.threads, Next(-1, s, DoInput(dst, port, d)).0.threads);
  }

  lemma InterruptElsewhere(s: State, i: nat)
    requires Shape(s) && i < PCB_SIZE
    ensures var s' := Next(-1, s, DoInterrupt).0;
            && Waiters(s'.threads, i) == Waiters(s.threads, i)
            && (s.pcbs[i].state != Open ==> s'.pcbs[i] == s.pcbs[i])
            && (s.pcbs[i].ctx.interrupted ==> s'.pcbs[i].ctx == s.pcbs[i].ctx)
  {
    SameSleepers(s.threads, Next(-1, s, DoInterrupt).0.threads);
  }

  lemma ReleaseElsewhere(s: State, id: nat, i: nat)
    requires Shape(s) && i < PCB_SIZE && id < PCB_SIZE
    ensures var s' := Release(-1, s, id);
            && Waiters(s'.threads, i) == Waiters(s.threads, i) && (id != i ==> s'.pcbs[i] == s.pcbs[i])
            && (s.pcbs[i].ctx.wc > 0 ==> s'.pcbs[i].ctx == s.pcbs[i].ctx)
  {
    SameSleepers(s.threads, Release(-1, s, id).threads);
  }

  lemma SendElsewhere(s: State, id: int, reach: Option<u32>, i: nat)
    requires Shape(s) && i < PCB_SIZE
    ensures var s' := Send(s, id, reach).0;
            && s'.threads == s.threads && s'.pcbs[i].ctx == s.pcbs[i].ctx
            && (s.pcbs[i].state != Open ==> s'.pcbs[i] == s.pcbs[i])
  {
  }

  lemma FetchOther(s: State, t: Tid, id: nat, size: nat, i: nat)
    requires Shape(s) && i < PCB_SIZE && id < PCB_SIZE && id != i && t !in s.threads
    ensures var s' := Fetch(s, t, id, size).0;
            Waiters(s'.threads, i) == Waiters(s.threads, i) && s'.pcbs[i] == s.pcbs[i]
  {
  }

  /** A waiter leaving a closing slot: the last one frees it, unless it was interrupted. */
  lemma WaiterLeavesClosing(s: State, t: Tid)
    requires Inv(s) && t in s.threads && s.pcbs[s.threads[t].pcb].state == Closing
    ensures var i := s.threads[t].pcb;
            var (s', r) := Next(-1, s, DoResume(t));
            var p, p' := s.pcbs[i], s'.pcbs[i];
            && r == Failed
            && Waiters(s'.threads, i) == Waiters(s.threads, i) - {t}
            && (p'.state == Free <==> !p.ctx.interrupted && p.ctx.wc == 1)
            && (p'.state != Free ==> p'.state == Closing && p'.ctx.wc == p.ctx.wc - 1)
            && p'.ctx.interrupted == (p.ctx.interrupted && p.ctx.wc != 1)
  {
    var i := s.threads[t].pcb;
    assert t in Waiters(s.threads, i);
    assert s.pcbs[i].ctx.wc == |Waiters(s.threads, i)|;
    assert Waiters(s.threads - {t}, i) == Waiters(s.threads, i) - {t};
    SameSleepers(s.threads - {t}, Broadcast(s.threads - {t}, i));
  }

  /** The step at position `k` of the run frees the slot, made by its only waiter. */
  ghost predicate LastWaiterFrees(s: State, ops: seq<Op>, i: nat, k: nat)
    requires Shape(s) && i < PCB_SIZE && k < |ops|
  {
    var before, after := Run(-1, s, ops[..k]), Run(-1, s, ops[..k + 1]);
    && HandingOver(before, i)
    && ops[k].DoResume? && Waiters(before.threads, i) == {ops[k].tid}
    && after.pcbs[i] == Pcb(Free, UNBOUND, [], Ctx(false, 0))
  }

  lemma RunSplit(s: State, ops: seq<Op>, k: nat)
    requires Shape(s) && 0 < k <= |ops|
    ensures Run(-1, s, ops[..k]) == Run(-1, Next(-1, s, ops[0]).0, ops[1..][..k - 1])
  {
    assert ops[..k][1..] == ops[1..][..k - 1];
  }

  /** After a close that leaves waiters behind without an interrupt, the slot stays closing
      with waiters until its last waiter frees it, clean. */
  lemma {:induction false} HandOver(s: State, ops: seq<Op>, i: nat)
    requires Inv(s) && i < PCB_SIZE && HandingOver(s, i)
    ensures HandingOver(Run(-1, s, ops), i)
            || exists k :: 0 <= k < |ops| && LastWaiterFrees(s, ops, i, k)
    decreases |ops|
  {
    if ops == [] {
      return;
    }
    var s1 := Next(-1, s, ops[0]).0;
    NextInv(s, ops[0]);
    if ResumesWaiter(s, ops[0], i) {
      WaiterLeavesClosing(s, ops[0].tid);
    } else {
      ClosingIsUntouched(s, ops[0], i);
    }
    if HandingOver(s1, i) {
      HandOver(s1, ops[1..], i);
      forall k | 0 <= k < |ops| - 1 && LastWaiterFrees(s1, ops[1..], i, k)
        ensures LastWaiterFrees(s, ops, i, k + 1)
      {
        if k > 0 { RunSplit(s, ops, k); }
        RunSplit(s, ops, k + 1);
        RunSplit(s, ops, k + 2);
      }
    } else {
      FirstStepFrees(s, ops, i);
    }
  }

  lemma FirstStepFrees(s: State, ops: seq<Op>, i: nat)
    requires Inv(s) && i < PCB_SIZE && HandingOver(s, i) && ops != []
    requires ResumesWaiter(s, ops[0], i) && !HandingOver(Next(-1, s, ops[0]).0, i)
    ensures LastWaiterFrees(s, ops, i, 0)
  {
    var t := ops[0].tid;
    WaiterLeavesClosing(s, t);
    assert ops[..0] == [] && ops[..1] == [ops[0]];
    assert |Waiters(s.threads, i)| == 1;
    OnlyMember(Waiters(s.threads, i), t);
    assert Run(-1, s, ops[..1]) == Next(-1, s, ops[0]).0;
  }

  lemma OnlyMember<T>(a: set<T>, x: T)
    requires |a| == 1 && x in a
    ensures a == {x}
  {
    assert |a - {x}| == 0;
  }

  /** A closing slot whose waiters were interrupted, or that has none, is never freed. */
  lemma {:induction false} LeakIsForever(s: State, ops: seq<Op>, i: nat)
    requires Inv(s) && i < PCB_SIZE && Leaked(s, i)
    ensures Leaked(Run(-1, s, ops), i)
    decreases |ops|
  {
    if ops == [] {
      return;
    }
    NextInv(s, ops[0]);
    if ResumesWaiter(s, ops[0], i) {
      WaiterLeavesClosing(s, ops[0].tid);
      assert ops[0].tid in Waiters(s.threads, i);
      assert s.pcbs[i].ctx.wc == |Waiters(s.threads, i)|;
    } else {
      ClosingIsUntouched(s, ops[0], i);
    }
    LeakIsForever(Next(-1, s, ops[0]).0, ops[1..], i);
  }

  /** Resuming every waiter of a slot that is being handed over frees it. */
  lemma {:induction false} WaitersLeave(s: State, i: nat) returns (ops: seq<Op>)
    requires Inv(s) && i < PCB_SIZE && HandingOver(s, i)
    ensures Run(-1, s, ops).pcbs[i].state == Free
    decreases s.pcbs[i].ctx.wc
  {
    assert |Waiters(s.threads, i)| > 0;
    var t :| t in Waiters(s.threads, i);
    WaiterLeavesClosing(s, t);
    var s1 := Next(-1, s, DoResume(t)).0;
    NextInv(s, DoResume(t));
    var rest := [];
    if s1.pcbs[i].state != Free {
      rest := WaitersLeave(s1, i);
    }
    ops := [DoResume(t)] + rest;
    assert ops[1..] == rest;
  }

  /** Some schedule frees the slot. */
  ghost predicate CanBeFreed(s: State, i: nat)
    requires Shape(s) && i < PCB_SIZE
  {
    exists ops :: Run(-1, s, ops).pcbs[i].state == Free
  }

  lemma FreedBy(s: State, i: nat, ops: seq<Op>)
    requires Shape(s) && i < PCB_SIZE && Run(-1, s, ops).pcbs[i].state == Free
    ensures CanBeFreed(s, i)
  {
  }

  /** A slot can be freed after a close exactly when the close did not find waiters that
      had just been interrupted: those return without releasing the slot. */
  lemma CloseFreesIff(s: State, id: int)
    requires Inv(s) && Gets(s.pcbs, id)
    ensures CanBeFreed(Next(-1, s, DoClose(id)).0, id)
            <==> !(s.pcbs[id].ctx.interrupted && s.pcbs[id].ctx.wc > 0)
  {
    var s1 := Next(-1, s, DoClose(id)).0;
    NextInv(s, DoClose(id));
    assert s.pcbs[id].ctx.wc == |Waiters(s.threads, id)|;
    if s.pcbs[id].ctx.wc == 0 {
      FreedBy(s1, id, []);
    } else if s.pcbs[id].ctx.interrupted {
      forall ops ensures Run(-1, s1, ops).pcbs[id].state != Free {
        LeakIsForever(s1, ops, id);
      }
    } else {
      var ops := WaitersLeave(s1, id);
      FreedBy(s1, id, ops);
    }
  }

  predicate NoInterruptIn(ops: seq<Op>) {
    forall k :: 0 <= k < |ops| ==> ops[k] != DoInterrupt
  }

  ghost predicate Uninterrupted(s: State) {
    forall i :: 0 <= i < |s.pcbs| ==> !s.pcbs[i].ctx.interrupted && !Leaked(s, i)
  }

  lemma UninterruptedStep(s: State, op: Op)
    requires Inv(s) && Uninterrupted(s) && op != DoInterrupt
    ensures Uninterrupted(Next(-1, s, op).0)
  {
    var s' := Next(-1, s, op).0;
    forall i | 0 <= i < PCB_SIZE ensures !s'.pcbs[i].ctx.interrupted && !Leaked(s', i) {
      assert !Leaked(s, i);
      assert s.pcbs[i].ctx.wc == |Waiters(s.threads, i)|;
    }
  }

  lemma {:induction false} UninterruptedRun(s: State, ops: seq<Op>)
    requires Inv(s) && Uninterrupted(s) && NoInterruptIn(ops)
    ensures Uninterrupted(Run(-1, s, ops))
    decreases |ops|
  {
    if ops == [] {
    } else {
      NextInv(s, ops[0]);
      UninterruptedStep(s, ops[0]);
      UninterruptedRun(Next(-1, s, ops[0]).0, ops[1..]);
    }
  }

  /** In runs without a network interrupt every closing slot still has a waiter. */
  lemma ClosingHasWaiter(ops: seq<Op>, i: nat)
    requires NoInterruptIn(ops) && i < PCB_SIZE && Run(-1, INIT, ops).pcbs[i].state == Closing
    ensures Run(-1, INIT, ops).pcbs[i].ctx.wc > 0
  {
    InitInv();
    RunInv(INIT, ops);
    UninterruptedRun(INIT, ops);
    var s := Run(-1, INIT, ops);
    assert s.pcbs[i].ctx.wc == |Waiters(s.threads, i)|;
    assert !Leaked(s, i);
  }

  /** A run that leaks a slot: the only waiter is interrupted, then the slot is closed. */
  lemma LeakingRun()
    ensures var s := Run(-1, INIT, [DoOpen, DoReceive(0, 0, 1), DoInterrupt, DoClose(0), DoResume(0)]);
            s.threads == map[] && Leaked(s, 0)
  {
  }

  // ---------------------------------------------------------------- interrupts

  /** While a slot is interrupted with threads inside the wait: nobody joins them, each
      that leaves fails, and the flag clears exactly when the last one has left. */
  lemma InterruptedStep(s: State, op: Op, i: nat)
    requires Inv(s) && i < PCB_SIZE && s.pcbs[i].ctx.interrupted && s.pcbs[i].ctx.wc > 0
    ensures var (s', r) := Next(-1, s, op);
            && Waiters(s'.threads, i) == Waiters(s.threads, i) - (if ResumesWaiter(s, op, i) then {op.tid} else {})
            && (ResumesWaiter(s, op, i) ==> r == Failed)
            && s'.pcbs[i].ctx.interrupted == (Waiters(s'.threads, i) != {})
            && s'.pcbs[i].ctx.wc == |Waiters(s'.threads, i)|
  {
    NextInv(s, op);
    assert s.pcbs[i].ctx.wc == |Waiters(s.threads, i)|;
    var s' := Next(-1, s, op).0;
    if ResumesWaiter(s, op, i) {
      assert Waiters(s.threads - {op.tid}, i) == Waiters(s.threads, i) - {op.tid};
      assert op.tid in Waiters(s.threads, i);
    } else {
      InterruptedOther(s, op, i);
    }
  }

  lemma InterruptedOther(s: State, op: Op, i: nat)
    requires Inv(s) && i < PCB_SIZE && s.pcbs[i].ctx.interrupted && s.pcbs[i].ctx.wc > 0
    requires !ResumesWaiter(s, op, i)
    ensures var s' := Next(-1, s, op).0;
            Waiters(s'.threads, i) == Waiters(s.threads, i) && s'.pcbs[i].ctx == s.pcbs[i].ctx
  {
    match op
    case DoResume(t) => if t in s.threads { ResumeElsewhere(s, t, i); }
    case DoInput(dst, port, d) => InputElsewhere(s, dst, port, d, i);
    case DoInterrupt => InterruptElsewhere(s, i);
    case DoClose(id) => if Gets(s.pcbs, id) { ReleaseElsewhere(s, id, i); }
    case DoSend(id, reach) => SendElsewhere(s, id, reach, i);
    case DoReceive(t, id, size) => if Gets(s.pcbs, id) { FetchElsewhere(s, t, id, size, i); }
    case DoOpen => assert FreeIsClean(s.pcbs[i]);
    case DoBind(_, _) =>
  }

  lemma FetchElsewhere(s: State, t: Tid, id: nat, size: nat, i: nat)
    requires Shape(s) && i < PCB_SIZE && id < PCB_SIZE && s.pcbs[i].ctx.interrupted
    ensures t !in s.threads ==>
              var s' := Fetch(s, t, id, size).0;
              Waiters(s'.threads, i) == Waiters(s.threads, i) && s'.pcbs[i].ctx == s.pcbs[i].ctx
  {
  }

  lemma ResumeElsewhere(s: State, t: Tid, i: nat)
    requires Inv(s) && i < PCB_SIZE && t in s.threads && s.threads[t].pcb != i
    ensures var s' := Resume(-1, s, t).0;
            Waiters(s'.threads, i) == Waiters(s.threads, i) && s'.pcbs[i] == s.pcbs[i]
  {
  }

  /** The step at position `k` of the run is made by the only remaining waiter, one of those
      that were interrupted: it fails and clears the flag. */
  ghost predicate LastWaiterClears(s: State, ops: seq<Op>, i: nat, k: nat)
    requires Shape(s) && i < PCB_SIZE && k < |ops|
  {
    var before := Run(-1, s, ops[..k]);
    var (after, r) := Next(-1, before, ops[k]);
    && before.pcbs[i].ctx.interrupted
    && ops[k].DoResume? && Waiters(before.threads, i) == {ops[k].tid} && ops[k].tid in Waiters(s.threads, i)
    && r == Failed && after.pcbs[i].ctx == Ctx(false, 0)
  }

  /** Over every run an interrupted slot with waiters stays interrupted, its waiters being
      some of those there were, until the last of them leaves, fails and clears the flag. */
  lemma {:induction false} InterruptedRun(s: State, ops: seq<Op>, i: nat)
    requires Inv(s) && i < PCB_SIZE && s.pcbs[i].ctx.interrupted && s.pcbs[i].ctx.wc > 0
    ensures var s' := Run(-1, s, ops);
            || (s'.pcbs[i].ctx.interrupted && {} < Waiters(s'.threads, i) <= Waiters(s.threads, i))
            || exists k :: 0 <= k < |ops| && LastWaiterClears(s, ops, i, k)
    decreases |ops|
  {
    assert s.pcbs[i].ctx.wc == |Waiters(s.threads, i)|;
    if ops == [] {
    } else {
      var s1 := Next(-1, s, ops[0]).0;
      InterruptedStep(s, ops[0], i);
      NextInv(s, ops[0]);
      if !s1.pcbs[i].ctx.interrupted {
        assert ops[..0] == [] && LastWaiterClears(s, ops, i, 0);
      } else {
        InterruptedRun(s1, ops[1..], i);
        if k :| 0 <= k < |ops[1..]| && LastWaiterClears(s1, ops[1..], i, k) {
          RunSplit(s, ops, k + 1);
          assert LastWaiterClears(s, ops, i, k + 1);
        }
      }
    }
  }

  ghost predicate Latched(s: State, i: nat) {
    i < |s.pcbs| && s.pcbs[i].ctx == Ctx(true, 0)
  }

  /** No operation of the run allocates slot `i`. */
  ghost predicate NotReinitialised(s: State, ops: seq<Op>, i: nat)
    requires Shape(s)
    decreases |ops|
  {
    ops == [] || (Next(-1, s, ops[0]).1 != Opened(i) && NotReinitialised(Next(-1, s, ops[0]).0, ops[1..], i))
  }

  lemma LatchedStep(s: State, op: Op, i: nat)
    requires Inv(s) && Latched(s, i) && Next(-1, s, op).1 != Opened(i)
    ensures Latched(Next(-1, s, op).0, i)
  {
    assert s.pcbs[i].ctx.wc == |Waiters(s.threads, i)|;
    NobodyOnEmptySlot(s, i);
  }

  /** An interrupt that finds nobody waiting stays latched until the slot is
      re-initialised, and until then no receive on the slot waits: it takes a queued
      datagram or fails. */
  lemma {:induction false} InterruptLatches(s: State, ops: seq<Op>, i: nat, t: Tid, size: nat)
    requires Inv(s) && Latched(s, i) && NotReinitialised(s, ops, i)
    ensures var s' := Run(-1, s, ops);
            && Latched(s', i)
            && Next(-1, s', DoReceive(t, i, size)).1 != Blocked
            && (t !in s'.threads && s'.pcbs[i].queue == [] ==> Next(-1, s', DoReceive(t, i, size)).1 == Failed)
    decreases |ops|
  {
    if ops == [] {
    } else {
      NextInv(s, ops[0]);
      LatchedStep(s, ops[0], i);
      InterruptLatches(Next(-1, s, ops[0]).0, ops[1..], i, t, size);
    }
  }

  // ---------------------------------------------------------------- ports

  /** Over every run: two different open slots never hold the same address and nonzero
      port, and of the slots that match a datagram to a nonzero port at most one is bound
      to its address and at most one to any address. */
  lemma PortTable(ops: seq<Op>, addr: u32, port: u16, i: nat, j: nat)
    requires i < PCB_SIZE && j < PCB_SIZE && port != 0
    requires var s := Run(-1, INIT, ops); Matches(s.pcbs[i], addr, port) && Matches(s.pcbs[j], addr, port)
    requires var s := Run(-1, INIT, ops);
             (s.pcbs[i].local.address == ADDR_ANY) == (s.pcbs[j].local.address == ADDR_ANY)
    ensures i == j
  {
    InitInv();
    RunInv(INIT, ops);
    var s := Run(-1, INIT, ops);
    assert SamePort(s.pcbs[i], s.pcbs[j]);
  }

  ghost predicate LowestMatch(pcbs: seq<Pcb>, dst: u32, port: u16, i: nat) {
    i < |pcbs| && Matches(pcbs[i], dst, port) && forall j :: 0 <= j < i ==> !Matches(pcbs[j], dst, port)
  }

  function Enqueued(pcbs: seq<Pcb>, i: nat, d: Datagram): seq<Pcb>
    requires i < |pcbs|
  {
    pcbs[i := pcbs[i].(queue := pcbs[i].queue + [d])]
  }

  /** A datagram is appended to the queue of the lowest matching slot and to no other, and
      is dropped exactly when no slot matches. */
  lemma DeliveredToLowest(s: State, dst: u32, port: u16, d: Datagram)
    requires Inv(s)
    ensures var (s', r) := Next(-1, s, DoInput(dst, port, d));
            && (r == Failed <==> forall j :: 0 <= j < PCB_SIZE ==> !Matches(s.pcbs[j], dst, port))
            && (r == Failed ==> s' == s)
            && (r != Failed ==>
                 exists i :: 0 <= i < PCB_SIZE && LowestMatch(s.pcbs, dst, port, i)
                             && s'.pcbs == Enqueued(s.pcbs, i, d))
  {
    var i := Select(s.pcbs, dst, port);
    assert i < PCB_SIZE ==> LowestMatch(s.pcbs, dst, port, i);
  }

  /** Distinct numbers below `n` are at most `n`. */
  lemma {:induction false} DistinctBelow(xs: seq<nat>, n: nat)
    requires forall a :: 0 <= a < |xs| ==> xs[a] < n
    requires forall a, b :: 0 <= a < b < |xs| ==> xs[a] != xs[b]
    ensures |xs| <= n
    decreases n
  {
    if xs == [] { return; }
    assert xs[0] < n;
    if n - 1 in xs {
      var k :| 0 <= k < |xs| && xs[k] == n - 1;
      DistinctBelow(xs[..k] + xs[k + 1..], n - 1);
    } else {
      DistinctBelow(xs, n - 1);
    }
  }

  /** The port search succeeds within its first sixteen candidates: fifteen other slots
      cannot occupy sixteen different ports. */
  lemma EphemeralPortFound(pcbs: seq<Pcb>, id: nat, addr: u32)
    requires |pcbs| == PCB_SIZE && id < PCB_SIZE && pcbs[id].local.port == 0
    ensures SearchPort(pcbs, addr, PORT_MIN) < PORT_MIN + PCB_SIZE
  {
    var q := SearchPort(pcbs, addr, PORT_MIN);
    var n := if q - PORT_MIN < PCB_SIZE then q - PORT_MIN else PCB_SIZE;
    var taken := seq(n, k requires 0 <= k < n => Select(pcbs, addr, Hton16(Little, PORT_MIN + k)));
    forall k | 0 <= k < n
      ensures taken[k] < PCB_SIZE && pcbs[taken[k]].local.port == Hton16(Little, PORT_MIN + k)
    {
      assert PORT_MIN <= PORT_MIN + k < q;
    }
    FewerPortsThanSlots(pcbs, id, taken);
  }

  lemma FewerPortsThanSlots(pcbs: seq<Pcb>, id: nat, taken: seq<nat>)
    requires |pcbs| == PCB_SIZE && id < PCB_SIZE && pcbs[id].local.port == 0 && |taken| <= PCB_SIZE
    requires forall k :: 0 <= k < |taken| ==>
               taken[k] < PCB_SIZE && pcbs[taken[k]].local.port == Hton16(Little, PORT_MIN + k)
    ensures |taken| < PCB_SIZE
  {
    forall a, b | 0 <= a < b < |taken| ensures taken[a] != taken[b] {
      if taken[a] == taken[b] {
        Hton16Injective(Little, PORT_MIN + a, PORT_MIN + b);
      }
    }
    forall k | 0 <= k < |taken| ensures taken[k] != id {
      Hton16Positive(PORT_MIN + k);
    }
    DistinctBelow(taken + [id], PCB_SIZE);
  }

  lemma Hton16Positive(p: u16)
    requires p != 0
    ensures Hton16(Little, p) != 0
  {
  }

  /** `udp_sendto` therefore never fails for want of a port: it fails exactly when the slot
      is not open, or is bound to any address and no interface reaches the destination. */
  lemma SendFailsIff(s: State, id: int, reach: Option<u32>)
    requires Inv(s)
    ensures Next(-1, s, DoSend(id, reach)).1 == Failed
            <==> !Gets(s.pcbs, id) || (s.pcbs[id].local.address == ADDR_ANY && reach.None?)
    ensures var (s', r) := Next(-1, s, DoSend(id, reach));
            r != Failed ==>
              && r.Sending? && r.local.port != 0 && s'.pcbs[id].local.port == r.local.port
              && var bound := s.pcbs[id].local.address;
                 r.local.address == if bound == ADDR_ANY then reach.value else bound
  {
    if Gets(s.pcbs, id) && !(s.pcbs[id].local.address == ADDR_ANY && reach.None?) {
      var p := s.pcbs[id];
      var addr := if p.local.address == ADDR_ANY then reach.value else p.local.address;
      if p.local.port == 0 {
        EphemeralPortFound(s.pcbs, id, addr);
        Hton16Positive(SearchPort(s.pcbs, addr, PORT_MIN));
      }
    }
  }

  // ---------------------------------------------------------------- queues

  /** The datagram a step puts into slot `i`, if any. */
  function Arrived(s: State, op: Op, i: nat): seq<Datagram> {
    if op.DoInput? && Select(s.pcbs, op.dst, op.port) == i then [op.datagram] else []
  }

  /** What a step hands to a caller of `udp_recvfrom` on slot `i`, with the caller's size. */
  function Handed(s: State, op: Op, i: nat): seq<(nat, Result)>
    requires Shape(s)
  {
    var r := Next(-1, s, op).1;
    if r.Received? && op.DoReceive? && op.id == i then [(op.size, r)]
    else if r.Received? && op.DoResume? && op.tid in s.threads && s.threads[op.tid].pcb == i then
      [(s.threads[op.tid].size, r)]
    else []
  }

  function AllArrived(s: State, ops: seq<Op>, i: nat): seq<Datagram>
    requires Shape(s)
    decreases |ops|
  {
    if ops == [] then [] else Arrived(s, ops[0], i) + AllArrived(Next(-1, s, ops[0]).0, ops[1..], i)
  }

  function AllHanded(s: State, ops: seq<Op>, i: nat): seq<(nat, Result)>
    requires Shape(s)
    decreases |ops|
  {
    if ops == [] then [] else Handed(s, ops[0], i) + AllHanded(Next(-1, s, ops[0]).0, ops[1..], i)
  }

  ghost predicate OpenThroughout(s: State, ops: seq<Op>, i: nat)
    requires Shape(s) && i < PCB_SIZE
    decreases |ops|
  {
    s.pcbs[i].state == Open && (ops == [] || OpenThroughout(Next(-1, s, ops[0]).0, ops[1..], i))
  }

  /** What a caller with a buffer of `size` bytes gets of a datagram. */
  function Answer(d: Datagram, size: nat): (r: Result)
    ensures r.Received? && r.foreign == d.foreign
    ensures r.bytes <= d.data && |r.bytes| == if size < |d.data| then size else |d.data|
  {
    Received(d.foreign, Truncated(d.data, size))
  }

  /** `handed` answers the first datagrams of `all`, in order; `left` are the others. */
  ghost predicate Conserved(all: seq<Datagram>, handed: seq<(nat, Result)>, left: seq<Datagram>) {
    && |handed| + |left| == |all|
    && left == all[|handed|..]
    && forall k :: 0 <= k < |handed| ==> handed[k].1 == Answer(all[k], handed[k].0)
  }

  lemma FetchConserves(s: State, t: Tid, i: nat, size: nat)
    requires Shape(s) && i < PCB_SIZE
    ensures var (s', r) := Fetch(s, t, i, size);
            Conserved(s.pcbs[i].queue, if r.Received? then [(size, r)] else [], s'.pcbs[i].queue)
  {
  }

  lemma StepConserves(s: State, op: Op, i: nat)
    requires Inv(s) && i < PCB_SIZE && s.pcbs[i].state == Open && Next(-1, s, op).0.pcbs[i].state == Open
    ensures Conserved(s.pcbs[i].queue + Arrived(s, op, i), Handed(s, op, i), Next(-1, s, op).0.pcbs[i].queue)
  {
    var q := s.pcbs[i].queue;
    assert q + [] == q;
    match op
    case DoReceive(t, id, size) =>
      if id == i && t !in s.threads { FetchConserves(s, t, i, size); }
    case DoResume(t) =>
      if t in s.threads && s.threads[t].pcb == i {
        var p := s.pcbs[i];
        var wc := p.ctx.wc - 1;
        var awake := State(s.pcbs[i := p.(ctx := Ctx(p.ctx.interrupted && wc != 0, wc))], s.threads - {t});
        FetchConserves(awake, t, i, s.threads[t].size);
      } else if t in s.threads {
        ResumeElsewhere(s, t, i);
      }
    case DoSend(id, reach) => SendKeepsQueues(s, id, reach, i);
    case DoInput(_, _, _) =>
    case DoInterrupt =>
    case DoOpen =>
    case DoClose(_) =>
    case DoBind(_, _) =>
  }

  lemma SendKeepsQueues(s: State, id: int, reach: Option<u32>, i: nat)
    requires Shape(s) && i < PCB_SIZE
    ensures Send(s, id, reach).0.pcbs[i].queue == s.pcbs[i].queue
  {
  }

  lemma Conserve(q: seq<Datagram>, a: seq<Datagram>, h: seq<(nat, Result)>, q1: seq<Datagram>,
                 a': seq<Datagram>, h': seq<(nat, Result)>, q2: seq<Datagram>)
    requires Conserved(q + a, h, q1) && Conserved(q1 + a', h', q2)
    ensures Conserved(q + (a + a'), h + h', q2)
  {
  }

  /** While a slot stays open, whichever threads receive on it, the datagrams that arrive
      are handed out once each, in arrival order, each cut to its caller's size; those not
      yet handed out are the queue. */
  lemma {:induction false} ReceivedInOrder(s: State, ops: seq<Op>, i: nat)
    requires Inv(s) && i < PCB_SIZE && OpenThroughout(s, ops, i)
    ensures Conserved(s.pcbs[i].queue + AllArrived(s, ops, i), AllHanded(s, ops, i), Run(-1, s, ops).pcbs[i].queue)
    decreases |ops|
  {
    if ops == [] {
    } else {
      var s1 := Next(-1, s, ops[0]).0;
      NextInv(s, ops[0]);
      StepConserves(s, ops[0], i);
      ReceivedInOrder(s1, ops[1..], i);
      Conserve(s.pcbs[i].queue, Arrived(s, ops[0], i), Handed(s, ops[0], i), s1.pcbs[i].queue,
               AllArrived(s1, ops[1..], i), AllHanded(s1, ops[1..], i), Run(-1, s, ops).pcbs[i].queue);
    }
  }

  /** The datagram at position `k` of a queue is answered to the `k`-th receiver of the run,
      cut to its size, or is still queued. */
  ghost predicate HandedOn(s: State, ops: seq<Op>, i: nat, k: nat, d: Datagram)
    requires Shape(s) && i < PCB_SIZE
  {
    var handed, left := AllHanded(s, ops, i), Run(-1, s, ops).pcbs[i].queue;
    if k < |handed| then handed[k].1 == Answer(d, handed[k].0)
    else k - |handed| < |left| && left[k - |handed|] == d
  }

  lemma ConservedAt(q: seq<Datagram>, arrived: seq<Datagram>, handed: seq<(nat, Result)>, left: seq<Datagram>, k: nat)
    requires Conserved(q + arrived, handed, left) && k < |q|
    ensures if k < |handed| then handed[k].1 == Answer(q[k], handed[k].0)
            else k - |handed| < |left| && left[k - |handed|] == q[k]
  {
    assert (q + arrived)[k] == q[k];
  }

  lemma QueuedIsHandedOn(s: State, ops: seq<Op>, i: nat, k: nat)
    requires Inv(s) && i < PCB_SIZE && OpenThroughout(s, ops, i) && k < |s.pcbs[i].queue|
    ensures HandedOn(s, ops, i, k, s.pcbs[i].queue[k])
  {
    ReceivedInOrder(s, ops, i);
    ConservedAt(s.pcbs[i].queue, AllArrived(s, ops, i), AllHanded(s, ops, i), Run(-1, s, ops).pcbs[i].queue, k);
  }
}
