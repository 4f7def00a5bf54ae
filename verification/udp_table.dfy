/** The UDP control block table and its operations in the form of src/lib/udp.c and
    handler/synchronize.c: an array updated in place, scan loops, and a wait that splits
    `udp_recvfrom`. Each method makes exactly one step of `UdpMonitor.Next`. */
module UdpTable {
  import opened Options
  import opened Words
  import opened UdpMonitor

  /** The table after `event_handler` has dealt with the first `k` slots. */
  ghost function InterruptUpTo(s: State, k: nat): State
    requires Shape(s) && k <= PCB_SIZE
  {
    State(seq(PCB_SIZE, i requires 0 <= i < PCB_SIZE => if i < k then Interrupted(s.pcbs[i]) else s.pcbs[i]),
          map t | t in s.threads ::
            if s.threads[t].pcb < k && s.pcbs[s.threads[t].pcb].state == Open
            then s.threads[t].(signalled := true) else s.threads[t])
  }

  lemma UpToNone(s: State)
    requires Shape(s)
    ensures InterruptUpTo(s, 0) == s
  {
    assert InterruptUpTo(s, 0).threads == s.threads;
  }

  lemma UpToNext(s: State, k: nat)
    requires Shape(s) && k < PCB_SIZE
    ensures var u := InterruptUpTo(s, k);
            && u.pcbs[k] == s.pcbs[k]
            && InterruptUpTo(s, k + 1) ==
                 if s.pcbs[k].state != Open then u
                 else State(u.pcbs[k := Interrupted(s.pcbs[k])], Broadcast(u.threads, k))
  {
    var u, v := InterruptUpTo(s, k), InterruptUpTo(s, k + 1);
    if s.pcbs[k].state != Open {
      assert v.pcbs == u.pcbs && v.threads == u.threads;
    } else {
      assert v.pcbs == u.pcbs[k := Interrupted(s.pcbs[k])];
      assert v.threads == Broadcast(u.threads, k);
    }
  }

  lemma UpToAll(s: State)
    requires Shape(s)
    ensures InterruptUpTo(s, PCB_SIZE) == InterruptAll(s)
  {
    assert InterruptUpTo(s, PCB_SIZE).pcbs == InterruptAll(s).pcbs;
    assert InterruptUpTo(s, PCB_SIZE).threads == InterruptAll(s).threads;
  }

  class Table {
    const pcbs: array<Pcb>
    /** The threads inside `pthread_cond_wait`, which the C library keeps. */
    var threads: map<Tid, Wait>

    ghost function View(): State
      reads this, pcbs
    {
      State(pcbs[..], threads)
    }

    ghost predicate Valid()
      reads this, pcbs
    {
      Shape(View())
    }

    constructor ()
      ensures Valid() && fresh(pcbs) && View() == INIT
    {
      pcbs := new Pcb[PCB_SIZE](_ => Pcb(Free, UNBOUND, [], Ctx(false, 0)));
      threads := map[];
      new;
      assert pcbs[..] == INIT.pcbs;
    }

    // -------------------------------------------------------------- handler/synchronize.c

    /** `sched_wakeup`: exactly the threads asleep on the slot become signalled; nobody leaves,
        joins or moves. */
    method SchedWakeup(i: nat)
      modifies this`threads
      ensures threads.Keys == old(threads).Keys
      ensures forall t :: t in threads ==>
                && threads[t].pcb == old(threads)[t].pcb && threads[t].size == old(threads)[t].size
                && (threads[t].signalled <==> old(threads)[t].signalled || old(threads)[t].pcb == i)
      ensures threads == Broadcast(old(threads), i)
    {
      threads := Broadcast(threads, i);
    }

    /** `sched_interrupt`: no thread of the slot stays asleep unsignalled, and of the table only
        the slot's flag changes. */
    method SchedInterrupt(i: nat)
      requires Valid() && i < PCB_SIZE
      modifies this`threads, pcbs
      ensures Valid() && pcbs[i].ctx == Ctx(true, old(pcbs[i]).ctx.wc)
      ensures forall t :: t in threads && threads[t].pcb == i ==> threads[t].signalled
      ensures forall t :: t in threads && threads[t].pcb != i ==> t in old(threads) && threads[t] == old(threads)[t]
      ensures threads == Broadcast(old(threads), i)
      ensures pcbs[..] == old(pcbs[..])[i := old(pcbs[i]).(ctx := old(pcbs[i]).ctx.(interrupted := true))]
    {
      pcbs[i] := pcbs[i].(ctx := pcbs[i].ctx.(interrupted := true));
      SchedWakeup(i);
    }

    // -------------------------------------------------------------- udp.c, table

    /** `udp_pcb_select`: the lowest open slot that matches; `PCB_SIZE` stands for NULL. */
    method PcbSelect(addr: u32, port: u16) returns (i: nat)
      requires Valid()
      ensures i == Select(pcbs[..], addr, port)
    {
      i := 0;
      while i < PCB_SIZE
        invariant i <= PCB_SIZE
        invariant SelectFrom(pcbs[..], addr, port, i) == Select(pcbs[..], addr, port)
      {
        if pcbs[i].state == Open
           && (pcbs[i].local.address == ADDR_ANY || pcbs[i].local.address == addr) && pcbs[i].local.port == port {
          return;
        }
        i := i + 1;
      }
    }

    /** `udp_open` with `udp_pcb_alloc`. */
    method OpenPcb() returns (r: Result)
      requires Valid()
      modifies pcbs
      ensures Valid() && (View(), r) == Next(-1, old(View()), DoOpen)
    {
      var i := 0;
      while i < PCB_SIZE
        invariant 0 <= i <= PCB_SIZE && pcbs[..] == old(pcbs[..])
        invariant AllocFrom(pcbs[..], i) == AllocFrom(pcbs[..], 0)
      {
        if pcbs[i].state == Free {
          pcbs[i] := pcbs[i].(state := Open, ctx := Ctx(false, 0));
          return Opened(i);
        }
        i := i + 1;
      }
      r := Failed;
    }

    /** `udp_pcb_release`, with the loop that empties the queue. */
    method PcbRelease(busy: int, i: nat)
      requires Valid() && i < PCB_SIZE
      modifies this`threads, pcbs
      ensures Valid() && View() == Release(busy, old(View()), i)
    {
      pcbs[i] := pcbs[i].(state := Closing);
      if Destroy(busy, pcbs[i].ctx) == -1 {
        SchedWakeup(i);
        return;
      }
      pcbs[i] := pcbs[i].(state := Free, local := UNBOUND);
      while pcbs[i].queue != []
        invariant threads == old(threads)
        invariant pcbs[..] == old(pcbs[..])[i := Pcb(Free, UNBOUND, pcbs[i].queue, old(pcbs[i]).ctx)]
        decreases |pcbs[i].queue|
      {
        pcbs[i] := pcbs[i].(queue := pcbs[i].queue[1..]);
      }
    }

    // -------------------------------------------------------------- udp.c, user commands

    /** `udp_close`. */
    method Close(busy: int, id: int) returns (r: Result)
      requires Valid()
      modifies this`threads, pcbs
      ensures Valid() && (View(), r) == Next(busy, old(View()), DoClose(id))
    {
      if !(0 <= id < PCB_SIZE) || pcbs[id].state != Open {
        return Failed;
      }
      PcbRelease(busy, id);
      r := Done;
    }

    /** `udp_bind`. */
    method Bind(id: int, local: Endpoint) returns (r: Result)
      requires Valid()
      modifies pcbs
      ensures Valid() && (View(), r) == Next(-1, old(View()), DoBind(id, local))
    {
      if !(0 <= id < PCB_SIZE) || pcbs[id].state != Open {
        return Failed;
      }
      var exist := PcbSelect(local.address, local.port);
      if exist < PCB_SIZE {
        return Failed;
      }
      pcbs[id] := pcbs[id].(local := local);
      r := Done;
    }

    /** The search for a source port in `udp_sendto`; one past the range if there is none. */
    method FindPort(addr: u32) returns (p: nat)
      requires Valid()
      ensures p == SearchPort(pcbs[..], addr, PORT_MIN)
    {
      p := PORT_MIN;
      while p <= PORT_MAX
        invariant PORT_MIN <= p <= PORT_MAX + 1
        invariant SearchPort(pcbs[..], addr, p) == SearchPort(pcbs[..], addr, PORT_MIN)
      {
        var exist := PcbSelect(addr, Hton16(Little, p));
        if exist == PCB_SIZE {
          return;
        }
        p := p + 1;
      }
    }

    /** The critical section of `udp_sendto`. */
    method SendTo(id: int, reach: Option<u32>) returns (r: Result)
      requires Valid()
      modifies pcbs
      ensures Valid() && (View(), r) == Next(-1, old(View()), DoSend(id, reach))
    {
      if !(0 <= id < PCB_SIZE) || pcbs[id].state != Open {
        return Failed;
      }
      var addr := pcbs[id].local.address;
      if addr == ADDR_ANY {
        if reach.None? {
          return Failed;
        }
        addr := reach.value;
      }
      if pcbs[id].local.port == 0 {
        var p := FindPort(addr);
        if p > PORT_MAX {
          return Failed;
        }
        pcbs[id] := pcbs[id].(local := pcbs[id].local.(port := Hton16(Little, p)));
      }
      r := Sending(Endpoint(addr, pcbs[id].local.port));
    }

    /** The critical section of `udp_input`. */
    method Input(dst: u32, port: u16, d: Datagram) returns (r: Result)
      requires Valid()
      modifies this`threads, pcbs
      ensures Valid() && (View(), r) == Next(-1, old(View()), DoInput(dst, port, d))
    {
      var i := PcbSelect(dst, port);
      if i == PCB_SIZE {
        return Failed;
      }
      pcbs[i] := pcbs[i].(queue := pcbs[i].queue + [d]);
      SchedWakeup(i);
      r := Done;
    }

    /** `event_handler`: interrupts every open slot. */
    method EventHandler()
      requires Valid()
      modifies this`threads, pcbs
      ensures Valid() && (View(), Done) == Next(-1, old(View()), DoInterrupt)
    {
      var k := 0;
      ghost var was := View();
      UpToNone(was);
      while k < PCB_SIZE
        invariant 0 <= k <= PCB_SIZE && Valid() && View() == InterruptUpTo(was, k)
      {
        UpToNext(was, k);
        if pcbs[k].state == Open {
          SchedInterrupt(k);
        }
        k := k + 1;
      }
      UpToAll(was);
    }

    /** `queue_pop` on a slot's queue, or `sched_sleep` up to the wait. */
    method TakeOrSleep(t: Tid, i: nat, size: nat) returns (r: Result)
      requires Valid() && i < PCB_SIZE
      modifies this`threads, pcbs
      ensures Valid() && (View(), r) == Fetch(old(View()), t, i, size)
    {
      if pcbs[i].queue != [] {
        var entry := pcbs[i].queue[0];
        pcbs[i] := pcbs[i].(queue := pcbs[i].queue[1..]);
        return Received(entry.foreign, Truncated(entry.data, size));
      }
      if pcbs[i].ctx.interrupted {
        return Failed;
      }
      pcbs[i] := pcbs[i].(ctx := pcbs[i].ctx.(wc := pcbs[i].ctx.wc + 1));
      threads := threads[t := Wait(i, false, size)];
      r := Blocked;
    }

    /** `udp_recvfrom` from the call to its first wait or its return. */
    method RecvFrom(t: Tid, id: int, size: nat) returns (r: Result)
      requires Valid() && t !in threads
      modifies this`threads, pcbs
      ensures Valid() && (View(), r) == Next(-1, old(View()), DoReceive(t, id, size))
    {
      if !(0 <= id < PCB_SIZE) || pcbs[id].state != Open {
        return Failed;
      }
      r := TakeOrSleep(t, id, size);
    }

    /** `udp_recvfrom` from a wakeup to its next wait or its return. */
    method RecvWoken(busy: int, t: Tid) returns (r: Result)
      requires Valid() && t in threads
      modifies this`threads, pcbs
      ensures Valid() && (View(), r) == Next(busy, old(View()), DoResume(t))
    {
      var w := threads[t];
      var i := w.pcb;
      threads := threads - {t};
      pcbs[i] := pcbs[i].(ctx := pcbs[i].ctx.(wc := pcbs[i].ctx.wc - 1));
      if pcbs[i].ctx.interrupted {
        if pcbs[i].ctx.wc == 0 {
          pcbs[i] := pcbs[i].(ctx := pcbs[i].ctx.(interrupted := false));
        }
        assert View() == Resume(busy, old(View()), t).0;
        return Failed;
      }
      if pcbs[i].state == Closing {
        PcbRelease(busy, i);
        return Failed;
      }
      r := TakeOrSleep(t, i, w.size);
    }
  }
}
