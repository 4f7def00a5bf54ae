# A verified model of a user-space IPv4/UDP stack

This project models a small IPv4/UDP stack written in C and proves what its parts keep over
every run and how they compose. Nothing here executes the stack.

The model follows the source file by file.

| file | models |
|---|---|
| `words.dfy`, `checksum.dfy` | byte order and the Internet checksum (`src/lib/util.c`), for both host byte orders |
| `bits.dfy`, `route.dfy` | interfaces, the route list and its lookup (`src/lib/ip.c`) |
| `arp.dfy`, `arp_runs.dfy`, `arp_answers.dfy`, `arp_ties.dfy`, `arp_table.dfy` | the ARP cache (`src/lib/arp.c`): one-step functions, whole runs, when its answers are right, a counterexample, the in-place table |
| `monitor.dfy`, `monitor_runs.dfy`, `monitor_steps.dfy`, `udp_table.dfy` | UDP control blocks with sleep, wakeup, interrupt and close (`src/lib/udp.c`, `handler/synchronize.c`): the state machine, whole runs, what each call promises, the in-place table |
| `sock.dfy`, `sock_calls.dfy` | the socket table over the control blocks (`src/lib/sock.c`), and what its calls promise |
| `wire.dfy`, `accepts.dfy`, `buffers.dfy` | the byte formats, what is accepted of them, and buffers filled in place |
| `queue.dfy`, `draining.dfy`, `drain.dfy` | the linked queue, the protocol input queues and the drain loop (`src/lib/net.c`, `device/loopback.c`) |
| `stack.dfy`, `endtoend.dfy`, `handshake.dfy`, `scenarios.dfy` | one host's output and input path, two hosts joined by a wire, address resolution between them, and gateway, broadcast and ping |
| `text.dfy` | the printed forms of addresses and endpoints |

How things are represented:

- A mutex-held region is one atomic step. A schedule of many threads is a sequence of steps,
  and a statement about every run is a statement about every such sequence. A step that is
  not enabled (a thread that is not asleep is woken, say) changes nothing.
- `arp_input` takes its lock twice and releases it in between, so it is two steps.
- The stateful C modules are classes over arrays whose methods are proved equal to one step
  of the state machine; the theorems about runs are about the state machine.
- A message is heard when the first half of `arp_input` takes it in, and accepted when it
  changes the cache.
- The clock and the reply of `pthread_cond_destroy` are parameters, and the parsers take
  `strtol` as one; `Text.StrToL` is the library function they are given. The wire is a byte
  sequence.
- Addresses and ports are kept as the C code keeps them, in network byte order inside a
  little-endian word. Only the checksum modules range over both byte orders.

## What the proofs found

- `udp_pcb_release` expects `sched_ctx_destroy` to return -1 while threads wait. The function
  passes on the result of `pthread_cond_destroy`, which POSIX specifies as an error number.
  `UdpRuns.CloseNeedsMinusOne`: closing keeps the monitor invariant if and only if the result
  is -1 or nobody waits. `UdpRuns.BusyRun` shows the error number 16 leave a receiver asleep
  on a freed slot. All theorems about runs take -1.
- `UdpRuns.CloseFreesIff`: a closed control block can become free again if and only if it was
  not both interrupted and waited on. `UdpRuns.LeakingRun` is a five-step run that loses a
  slot, `UdpRuns.LeakIsForever` says it stays lost.
- `ArpAnswers.InterleavedAnswersIff`: when `arp_resolve` runs between the halves of
  `arp_input`, under a clock that never goes back, its answers are right throughout a history
  if and only if no step allocates the slot of a resolved entry that a later resolved entry
  for the same address contradicts. `ArpTies.StaleAnswer` is a history where that happens and
  an outdated address is answered; `ArpAnswers.InterleavedAnswers`: it cannot happen if no two
  timestamps are equal. `ArpRuns.AtomicAnswers`: with `arp_input` uninterrupted the answers
  are always right.
- `Checksum.NetworkChecksumIff`: on a big-endian host `cksum16` is wrong exactly for odd
  lengths with a nonzero last byte; on a little-endian host it is always right.
- `Stack.WildcardSenderRoutable`: a sender bound to any address passes the source check of
  `ip_send_packet` unless it broadcasts from an interface whose address is 0.0.0.0;
  `Stack.ZeroBroadcaster` is a host where it does.
- `Handshake.ReportedNotSentIff`: a datagram that does not leave is reported as sent if and
  only if it is routed to a next hop, neighbour or gateway, that is not resolved, whether the
  device is up or down. `Handshake.RetryArrives`: after the request it triggers is answered,
  the next one is delivered.
- `Wire.PayloadInside`: the data `ip_input` hands up lies inside the packet if and only if the
  header length is at most the total length, which the code does not check; otherwise the
  length wraps around. `Wire.OverrunExample`: such packets exist for every protocol and all
  addresses. `Wire.OverrunLength`: `udp_input` always refuses the length; the 16 bits of it
  that `icmp_input` uses reach past the packet.
- `Text.EndpointRoundTrip`: a printed endpoint parses back if and only if its port is nonzero.

## Model

| member | source | states |
|---|---|---|
| `Words.NetworkOrder` | src/lib/util.c:202-216 | on either host the stored bytes of `hton16(h)` are `h` high byte first, and `ntoh16` and `hton16` undo each other |
| `Words.Hton16Injective` | src/lib/util.c:202-208 | `hton16` never maps two ports to one |
| `Words.Byteswap32Reverses` | src/lib/util.c:196-200 | `byteswap32` reverses the four stored bytes and is its own inverse |
| `Words.SwapMultiplies` | src/lib/util.c:191-194 | `byteswap16` multiplies by 256 modulo 65535 and keeps zero apart |
| `Checksum.Cksum16` | src/lib/util.c:234-250 | the loop with its 32-bit wrap-around and folding computes the complement of the canonical ones-complement representative of the seeded word sum |
| `Checksum.AddWords` | src/lib/util.c:238-245 | the summing loop gives seed plus word sum modulo 2^32, a trailing byte counted as the first byte of a host word |
| `Checksum.Fold` | src/lib/util.c:246-248 | folding ends, in the unique 16-bit number congruent to its input modulo 65535 that is zero only for zero |
| `Checksum.NoOverflow` | src/lib/util.c:234-250 | for up to 65535 bytes and a 16-bit seed the 32-bit sum does not wrap |
| `Checksum.SwappedSum` | src/lib/util.c:234-250 | a little-endian word sum is the byte-swapped sum of section 1 of RFC 1071, for every length |
| `Checksum.NetworkChecksumIff` | src/lib/util.c:234-250 | the stored bytes are the RFC 1071 checksum iff the host is little-endian, the length is even or the last byte is 0 |
| `Checksum.BigEndianOddByte` | src/lib/util.c:243-245 | a one-byte message on which a big-endian host disagrees with RFC 1071 |
| `Checksum.StoreThenVerify` | src/lib/ip.c:303-306 | storing the checksum in a zeroed aligned field makes verification give 0, for any seed |
| `Checksum.Chaining` | src/lib/udp.c:226-232 | seeding with the complement of the checksum of an even-length part equals the checksum of the concatenation |
| `Checksum.WrapAroundRecomputation` | src/lib/udp.c:171-171 | a seed reduced by the stored sum modulo 2^32 gives the checksum of the message with that field zeroed |
| `Checksum.ErrorDetection` | src/lib/udp.c:170-173 | after replacing one aligned word, a message that verified still does iff the word is the same or changed between 0x0000 and 0xffff, and the whole sum is not zero |
| `Bits.AndSwap32` | src/lib/util.c:196-200 | masking commutes with `byteswap32` |
| `Routing.RouteTable.constructor` | src/lib/ip.c:45-45 | the list starts empty |
| `Routing.RouteTable.Add` | src/lib/ip.c:133-159 | put in front, the new route takes over exactly the destinations it matches for which the route found before has no longer mask; all others keep their route |
| `Routing.LookupAfterAdd` | src/lib/ip.c:133-171 | how lookup in a list relates to lookup in the list with a route added, ties going to the new one |
| `Routing.RouteTable.Find` | src/lib/ip.c:161-171 | the candidate loop returns the index given by `Lookup` |
| `Routing.ScanFindsBest` | src/lib/ip.c:161-171 | the scan returns a hit of maximal rank, the first on ties, and nothing only if nothing hits |
| `Routing.MatchIsCover` | src/lib/ip.c:164-164 | with a contiguous mask, the masked comparison on swapped words holds iff the destination shares the prefix bits |
| `Routing.MasksOrdered` | src/lib/ip.c:165-165 | comparing masks after `ntoh32` orders them by prefix length |
| `Routing.LongestPrefix` | src/lib/ip.c:161-171 | lookup is longest-prefix match: maximal length, most recently added on ties, none iff nothing covers the destination |
| `Routing.OwnSubnet` | src/lib/ip.c:192-231 | for every mask, an interface's unicast and broadcast addresses match its own subnet route, and the broadcast address is all ones outside the mask |
| `Routing.SubnetMatchesIff` | src/lib/ip.c:214-231 | an interface's route matches exactly the addresses that agree with its own in every bit of the mask, and has no gateway |
| `Routing.SubnetBroadcast` | src/lib/ip.c:192-212 | interfaces of one subnet have the same broadcast address |
| `Routing.GatewayRoutes` | src/lib/ip.c:173-184 | with an interface and a default gateway configured, lookup gives the subnet's route for the subnet and the gateway's for everything else |
| `Routing.DefaultIsTotal` | src/lib/ip.c:173-184 | with a default route lookup always answers, and with it only if no longer mask matches |
| `ArpCache.Select` | src/lib/arp.c:116-127 | the first live entry for the address, or none if there is none |
| `ArpCache.AllocChoice` | src/lib/arp.c:100-114 | the first free slot if there is one, else a slot with minimal timestamp |
| `ArpCache.LaterIsMicros` | src/lib/arp.c:109-109 | `timercmp` on normalised times is comparison in microseconds |
| `ArpCache.SweepKeepsYoung` | src/lib/arp.c:306-323 | a sweep keeps a dynamic entry iff it is younger than 31 seconds, clears it otherwise and touches nothing else |
| `ArpRuns.NeverStatic` | src/lib/arp.c:129-166 | no run creates a static entry |
| `ArpRuns.AtomicInv` | src/lib/arp.c:219-304 | with uninterrupted input, in every run live entries have distinct addresses and resolved entries hold what was last heard from their address |
| `ArpRuns.AtomicAnswers` | src/lib/arp.c:263-304 | then a FOUND answer is the sender of the message last heard from that address |
| `ArpRuns.InterleavedInv` | src/lib/arp.c:244-300 | in every interleaved run no three live entries share an address, every resolved entry was accepted, and an unmerged message's address has an entry only if one was created since |
| `ArpRuns.InterleavedEntries` | src/lib/arp.c:244-300 | at most two live entries for an address, each resolved one from an accepted message |
| `ArpRuns.DuplicateOrigin` | src/lib/arp.c:253-255 | a step that makes a duplicate is the second half of `arp_input` for that address, after `arp_resolve` created an entry between the halves |
| `ArpAnswers.ShadowRun` | src/lib/arp.c:100-300 | in every run with a clock that never goes back and no uncovering step, a stale resolved entry is shadowed by a current one for its address at a lower index and not older |
| `ArpAnswers.FirstIsCurrent` | src/lib/arp.c:116-300 | of two entries that contradict each other the first is the current one |
| `ArpAnswers.UncoveringIsWrong` | src/lib/arp.c:100-114 | right after a step that uncovers a stale entry an answer is wrong |
| `ArpAnswers.InterleavedAnswersIff` | src/lib/arp.c:219-304 | for every interleaved history with a clock that never goes back: all answers are right at every point iff no step allocates the slot of a resolved entry that a later one contradicts |
| `ArpAnswers.InterleavedAnswers` | src/lib/arp.c:263-304 | with a strictly increasing clock no step uncovers, so interleaving never makes `arp_resolve` answer with an outdated address |
| `ArpTies.StaleAnswer` | src/lib/arp.c:100-114 | a history with a non-decreasing clock after which `arp_resolve` answers with the older of two addresses |
| `ArpRuns.IncompleteKeepsCreation` | src/lib/arp.c:286-298 | an incomplete entry carries the time of the request that created it, however often it was requested again |
| `ArpRuns.UnansweredIsYoung` | src/lib/arp.c:306-323 | after any sweep an incomplete entry was created less than 31 seconds before |
| `ArpTable.Table.constructor` | src/lib/arp.c:54-54 | the table starts as all free entries |
| `ArpTable.Table.CacheAlloc` | src/lib/arp.c:100-114 | the scan computes `Alloc` and stays inside the table |
| `ArpTable.Table.CacheSelect` | src/lib/arp.c:116-127 | the scan computes `Select` |
| `ArpTable.Table.CacheUpdate` | src/lib/arp.c:129-146 | the found entry becomes resolved with the new address and time, and the result says whether there was one |
| `ArpTable.Table.CacheInsert` | src/lib/arp.c:148-166 | the allocated slot becomes a resolved entry |
| `ArpTable.Table.InputFirst` | src/lib/arp.c:244-249 | the first locked region is the first-half step |
| `ArpTable.Table.InputSecond` | src/lib/arp.c:250-260 | the rest is the second-half step, and a reply is due exactly for a request to our address |
| `ArpTable.Table.ResolveAddress` | src/lib/arp.c:277-300 | the locked region is the request step with its answer |
| `ArpTable.Table.Timer` | src/lib/arp.c:306-323 | the loop is the sweep step |
| `UdpMonitor.SelectFrom` | src/lib/udp.c:107-120 | the lowest open block that matches the address, or the wildcard, and the port |
| `UdpMonitor.AllocFrom` | src/lib/udp.c:74-87 | the lowest free slot, or none if there is none |
| `UdpMonitor.SearchPort` | src/lib/udp.c:362-375 | the lowest port from the start on that no block matches, every lower one being taken |
| `UdpMonitor.ReleaseInv` | src/lib/udp.c:89-105 | releasing a block keeps the monitor invariant, waiters or not |
| `UdpMonitor.ResumeInv` | src/lib/udp.c:388-408 | a woken receiver keeps it, on every way out of the wait loop |
| `UdpMonitor.NextInv` | src/lib/udp.c:74-417 | every step keeps the invariant: waiter counts, clean free slots, no lost wakeup, distinct ports |
| `UdpMonitor.RunInv` | src/lib/udp.c:74-417 | so does every run |
| `UdpRuns.NoWakeupIsLost` | src/lib/udp.c:381-417 | in every reachable state a thread asleep and unsignalled sits on an open block with an empty queue that is not interrupted |
| `UdpRuns.CountsAndFreeSlots` | handler/synchronize.c:22-46 | `wc` is always the number of threads inside the wait, and a free slot has `wc` 0, endpoint (any, 0) and an empty queue |
| `UdpRuns.CloseNeedsMinusOne` | src/lib/udp.c:95-99 | closing keeps the invariant iff destroy reports -1 or nobody waits |
| `UdpRuns.BusyRun` | src/lib/udp.c:95-99 | if destroy reports 16, open, receive, close leaves a thread asleep and unsignalled on a free slot with `wc` 1 |
| `UdpRuns.ClosingIsUntouched` | src/lib/udp.c:107-136 | only its own waiters change a closing block: it is never selected, fetched or reallocated |
| `UdpRuns.WaiterLeavesClosing` | src/lib/udp.c:395-408 | a waiter of a closing block leaves with an error, and the block is freed iff it was the last and the block is not interrupted |
| `UdpRuns.HandOver` | src/lib/udp.c:89-105 | over every run a closing block with waiters stays one until some step in which its last waiter frees it, with endpoint and queue reset |
| `UdpRuns.WaitersLeave` | src/lib/udp.c:395-408 | resuming the waiters of such a block one by one does free it |
| `UdpRuns.ClosingHasWaiter` | src/lib/udp.c:89-105 | in runs without a network interrupt every closing block has waiters |
| `UdpRuns.CloseFreesIff` | src/lib/udp.c:290-305 | after a close some run frees the slot iff the block was not both interrupted and waited on |
| `UdpRuns.LeakIsForever` | src/lib/udp.c:89-105 | a closing block that is interrupted or has no waiter is never freed by any run |
| `UdpRuns.LeakingRun` | src/lib/udp.c:243-255 | open, receive, interrupt, close, wake: the slot is lost with no thread left |
| `UdpRuns.InterruptedStep` | handler/synchronize.c:22-59 | once interrupted with waiters, nobody new waits, a resumed waiter fails, and the flag clears exactly when the last one leaves |
| `UdpRuns.InterruptedRun` | handler/synchronize.c:22-59 | over every run an interrupted slot with waiters stays so, its waiters only leaving, until a step in which the only one left fails and clears the flag |
| `UdpRuns.InterruptLatches` | handler/synchronize.c:24-29 | interrupted without waiters, the flag stays over every run until re-initialisation, and a receive that finds no data fails instead of sleeping |
| `UdpRuns.PortTable` | src/lib/udp.c:307-332 | in every reachable state at most one exact and one wildcard block match an address and nonzero port |
| `UdpRuns.DeliveredToLowest` | src/lib/udp.c:179-202 | input appends the datagram to the queue of the lowest match and nothing else, and fails iff nothing matches |
| `UdpRuns.EphemeralPortFound` | src/lib/udp.c:362-375 | for any table with an unbound block the port search ends within its first 16 candidates |
| `UdpRuns.SendFailsIff` | src/lib/udp.c:334-379 | sending fails iff the block is not open or an unbound sender has no route; otherwise it has a nonzero port and the address of the block or its interface |
| `UdpRuns.ReceivedInOrder` | src/lib/udp.c:144-417 | over any run of an open block, what was queued plus what arrived is what receivers got, in order and cut to their sizes, plus what is still queued |
| `UdpSteps.OpensClean` | src/lib/udp.c:272-288 | open hands out the lowest free block, unbound, empty and uninterrupted, changes nothing else, and fails iff none is free |
| `UdpSteps.ClosesBlock` | src/lib/udp.c:290-305 | close makes the block unusable at once: free and clean if nobody waits, else closing with all its waiters signalled; nothing else changes |
| `UdpSteps.BindsBlock` | src/lib/udp.c:307-332 | bind gives the block its endpoint and makes it the one selected for that endpoint; it is refused iff the block is not open or some block already matches |
| `UdpSteps.BoundPortIsKept` | src/lib/udp.c:362-376 | a sender with a port sends from that port and the table stays as it is |
| `UdpSteps.UnboundGetsPort` | src/lib/udp.c:362-376 | one without gets a port from 49152 to 65535 that no open block takes at its address, and only the block's port changes |
| `UdpSteps.PortIsStable` | src/lib/udp.c:334-379 | a second send uses the port of the first |
| `UdpSteps.ReceiveTakesOrSleeps` | src/lib/udp.c:381-417 | receive takes the head of any nonempty queue, cut to size; on an empty one it fails if interrupted and else sleeps, counted and unsignalled |
| `UdpSteps.WokenTakesOrSleeps` | src/lib/udp.c:395-408 | a woken receiver of an open, uninterrupted block takes the head of the queue and leaves the wait, or sleeps again if the queue is empty |
| `UdpSteps.SleeperGetsDatagram` | src/lib/udp.c:179-202 | a datagram arriving for a sleeping receiver's block signals it, and on resuming it returns with that datagram |
| `UdpSteps.ArrivalAppends` | src/lib/udp.c:179-202 | an arrival goes to the lowest match and signals exactly its waiters |
| `UdpSteps.InterruptFlagsOpen` | src/lib/udp.c:243-255 | an interrupt flags exactly the open blocks, signals exactly their waiters and touches nothing else |
| `UdpTable.Table.constructor` | src/lib/udp.c:53-53 | the table starts as all free blocks and no sleepers |
| `UdpTable.Table.SchedWakeup` | handler/synchronize.c:48-52 | a thread is signalled afterwards iff it was or sleeps on this block; nobody leaves, joins or moves |
| `UdpTable.Table.SchedInterrupt` | handler/synchronize.c:54-59 | no thread of the block stays unsignalled, other threads and the rest of the table are unchanged, and the flag is set with `wc` kept |
| `UdpTable.Table.PcbSelect` | src/lib/udp.c:107-120 | the scan computes `Select` |
| `UdpTable.Table.OpenPcb` | src/lib/udp.c:272-288 | the open step of the monitor |
| `UdpTable.Table.PcbRelease` | src/lib/udp.c:89-105 | the release function of the monitor, for any result of destroy |
| `UdpTable.Table.Close` | src/lib/udp.c:290-305 | the close step of the monitor |
| `UdpTable.Table.Bind` | src/lib/udp.c:307-332 | the bind step of the monitor, refused when the endpoint is taken |
| `UdpTable.Table.FindPort` | src/lib/udp.c:362-375 | the loop computes the port search |
| `UdpTable.Table.SendTo` | src/lib/udp.c:334-379 | the send step of the monitor with the local endpoint used, which `UdpSteps.BoundPortIsKept` and `UdpSteps.UnboundGetsPort` describe |
| `UdpTable.Table.Input` | src/lib/udp.c:179-202 | the delivery step of the monitor |
| `UdpTable.Table.EventHandler` | src/lib/udp.c:243-255 | the loop interrupts exactly the open blocks |
| `UdpTable.Table.RecvFrom` | src/lib/udp.c:381-417 | the receive step up to a datagram, an error or going to sleep |
| `UdpTable.Table.RecvWoken` | handler/synchronize.c:31-45 | the step of a woken thread, back through the wait loop, which `UdpSteps.WokenTakesOrSleeps` and `UdpRuns.WaiterLeavesClosing` describe |
| `Sockets.SockNextKeeps` | src/lib/sock.c:42-167 | every socket call, delivery, interrupt and wakeup keeps ownership |
| `Sockets.OpenSlotsAreOwned` | src/lib/sock.c:70-119 | in every sequential run each open block is owned by exactly one used datagram socket, and a datagram socket's descriptor is -1 or an open block |
| `SockCalls.OpenGivesSocket` | src/lib/sock.c:70-99 | opening hands out the lowest unused socket with a block that was free; without a free block it fails and the socket stays used; bad arguments and a full table have no effect |
| `SockCalls.ReachesOwnBlock` | src/lib/sock.c:121-167 | bind, send and receive on a socket are those of the block it owns |
| `SockCalls.NoBlockFails` | src/lib/sock.c:121-167 | on any other id they fail without effect |
| `SockCalls.ClosesOwnBlock` | src/lib/sock.c:101-119 | close closes the socket's own block and clears the socket; on any other id it fails without effect |
| `SockCalls.Isolation` | src/lib/sock.c:101-167 | a call on one socket changes neither another socket nor its block |
| `SockCalls.SocketGetsDatagram` | src/lib/sock.c:121-137 | a datagram delivered to a socket's empty block is what the next receive on the socket returns, and what a receiver asleep on it wakes with |
| `SockCalls.SocketInterrupted` | src/lib/sock.c:121-137 | a receiver asleep on a socket returns with an error after a network interrupt |
| `Sockets.SockTable.constructor` | src/lib/sock.c:13-13 | no socket is in use at the start |
| `Sockets.SockTable.Open` | src/lib/sock.c:70-99 | the scan and allocation are the open step of the socket machine |
| `Sockets.SockTable.Close` | src/lib/sock.c:101-119 | freeing and closing the block are the close step of the socket machine |
| `Wire.UdpRoundTrip` | src/lib/udp.c:155-241 | every segment `udp_output` builds is taken apart by `udp_input` into the same ports and data |
| `Wire.UdpChecksumIsRfc` | src/lib/udp.c:220-232 | the emitted segment carries, high byte first, the RFC 1071 checksum over addresses, zero, protocol 17, length and the segment without it |
| `Wire.CorruptedWord` | src/lib/udp.c:155-173 | an accepted segment with one aligned word replaced is still accepted iff the word is unchanged or moved between 0x0000 and 0xffff outside the length field |
| `Wire.PayloadInside` | src/lib/ip.c:253-268 | for every accepted packet, start plus wrapped length stays within the packet iff the header length is at most the total length |
| `Wire.OverrunExample` | src/lib/ip.c:253-268 | for every protocol and all addresses a packet of six header words and total length 20 is accepted and hands up length 2^64 - 4 |
| `Wire.OverrunLength` | src/lib/udp.c:155-158 | a wrapped length equals no 16-bit length field, and cut to 16 bits still reaches past any packet of at most 65535 bytes |
| `Accepts.IpAcceptedIff` | src/lib/ip.c:251-262 | `ip_input` takes a packet iff version, lengths, the RFC 1071 header checksum and the fragment bits are right, and reads protocol and addresses from their bytes |
| `Accepts.UdpAcceptedIff` | src/lib/udp.c:155-173 | `udp_input` takes a segment iff its length field is its length and it verifies with the pseudo header by RFC 1071 |
| `Accepts.IcmpAcceptedIff` | src/lib/icmp.c:98-106 | `icmp_input` takes a message iff it has a whole header and verifies by RFC 1071 |
| `Accepts.ArpAcceptedIff` | src/lib/arp.c:227-243 | `arp_input` takes a message iff it starts with the bytes for Ethernet and IPv4, and reads the addresses from their bytes |
| `Accepts.FrameAcceptedIff` | src/lib/ether.c:105-129 | a device takes a frame iff it has a whole header and is to itself or to all, and hands up what follows the header of its first 1514 bytes |
| `Wire.IpHeaderBytes` | src/lib/ip.c:287-312 | the emitted header has every field in its place and verifies |
| `Wire.IpChecksumIsRfc` | src/lib/ip.c:303-306 | the emitted header carries its RFC 1071 checksum, high byte first |
| `Wire.IpRoundTrip` | src/lib/ip.c:243-312 | `ip_input` recovers protocol, addresses and payload of every emitted packet and trims any padding |
| `Wire.EtherRoundTrip` | src/lib/ether.c:85-129 | a frame is accepted iff it is for this address or broadcast, and then yields type and data followed by the zero padding |
| `Wire.IcmpRoundTrip` | src/lib/icmp.c:91-148 | every ICMP message built is parsed back |
| `Wire.ArpRoundTrip` | src/lib/arp.c:181-243 | every ARP packet built is parsed back, padding ignored |
| `Wire.ArpFields` | src/lib/arp.c:181-217 | operation and target hardware address of an emitted packet are in place |
| `Buffers.FillUdp` | src/lib/udp.c:205-241 | the buffer filled in place, checksum stored last, holds the segment |
| `Buffers.FillIp` | src/lib/ip.c:287-312 | the buffer filled in place holds the packet |
| `Buffers.FillEther` | src/lib/ether.c:85-99 | the zeroed frame filled in place holds the padded frame |
| `Buffers.FillIcmp` | src/lib/icmp.c:126-148 | the buffer filled in place holds the message |
| `Queues.QueueHead.constructor` | src/lib/util.c:106-111 | a new queue is empty |
| `Queues.QueueHead.Push` | src/lib/util.c:113-135 | linking a node at the tail appends to the sequence, whose length is `num` |
| `Queues.QueueHead.Pop` | src/lib/util.c:137-154 | unlinking the head removes the first element, and an empty queue gives nothing |
| `Queues.QueueHead.Peek` | src/lib/util.c:156-162 | the first element, if any |
| `Queues.QueueHead.Visited` | src/lib/util.c:164-174 | the walk meets every element once in order |
| `Queues.QueueSet.PushTo` | src/lib/util.c:113-135 | with several linked queues side by side a push changes one of them only |
| `Queues.QueueSet.PopFrom` | src/lib/util.c:137-154 | and so does a pop |
| `Stack.ReadyDevice` | src/lib/ip.c:274-285 | a ready device sends exactly the packet, looped back or framed to the broadcast or resolved hardware address; one that is not ready sends nothing but an ARP request |
| `Stack.WildcardSenderRoutable` | src/lib/ip.c:331-341 | a sender bound to any address passes the source check iff it does not broadcast from interface 0.0.0.0 |
| `Stack.BroadcastRefused` | src/lib/udp.c:334-379 | on every host where that is so, the send fails |
| `Stack.ZeroBroadcaster` | src/lib/ip.c:331-334 | a host and a freshly opened sender to which it happens |
| `Stack.PacketLeavesIff` | src/lib/ip.c:274-350 | anything but an ARP request leaves iff the packet is routable, fits, its device is up and the next hop is loopback, broadcast or resolved; then it is one output, framed to that hardware address (`Handshake.SentToHop` says which hop) |
| `Stack.OutputOfPacket` | src/lib/ip.c:324-350 | what leaves is the packet with the interface's address, framed or looped back, or an ARP request |
| `Stack.SentPacket` | src/lib/udp.c:334-379 | the packet of a datagram names the sender's own address and port |
| `EndToEnd.PacketUnderstood` | src/lib/ip.c:243-272 | a padded packet with a datagram for this host reaches `udp_input` with sender and payload intact; one for another host has no effect |
| `EndToEnd.DatagramDelivered` | src/lib/udp.c:144-241 | any datagram that leaves one host as a frame and is taken by a device is delivered as sent to a host owning its destination, and changes nothing on any other |
| `EndToEnd.SentIsReceived` | src/lib/udp.c:334-417 | it is appended to exactly the queue of the lowest match; over any later run that keeps the slot open, the receiver whose turn it is gets the sender's endpoint and the first bytes that fit, or it is still queued in its place |
| `EndToEnd.DatagramLeavesIff` | src/lib/udp.c:334-379 | a datagram leaves its host iff the control block is open, it has a source address and its packet departs |
| `EndToEnd.ResolvedDatagramArrives` | src/lib/udp.c:144-241 | from conditions on the two hosts alone: a datagram that leaves towards a host owning its destination is sent as one frame and delivered there as sent |
| `Handshake.ArpTaken` | src/lib/arp.c:219-261 | an ARP message to this host leaves the cache answering with its sender, whatever it held, and is answered iff it is a request, to the sender alone |
| `Handshake.RequestAnswered` | src/lib/arp.c:181-261 | the owner of a requested address replies to the requester and has learnt its address |
| `Handshake.OthersAreSilent` | src/lib/arp.c:250-260 | no other host replies |
| `Handshake.ReplyHeard` | src/lib/arp.c:200-261 | after the reply the requester resolves the owner's hardware address |
| `Handshake.ReportedNotSentIff` | src/lib/ip.c:274-350 | a send succeeds without its datagram leaving iff it is routed to an unresolved next hop |
| `Handshake.FirstAttempt` | src/lib/arp.c:277-298 | then exactly one ARP request for the next hop leaves instead, or nothing if the device is down |
| `Handshake.RetryArrives` | src/lib/arp.c:219-304 | request, reply and second datagram composed: after the exchange between two hosts the next datagram is delivered, for all prior states, times and data |
| `Handshake.SentToHop` | src/lib/ip.c:339-349 | a packet is framed to the hardware address of its route's gateway, or of the destination if there is none, or to all for a broadcast hop, or replaced by a request for that hop |
| `Handshake.SendEffects` | src/lib/ip.c:314-350 | a packet not refused moves the identifier on by one modulo 65536 and leaves the cache as `arp_resolve` for the hop does; nothing else changes |
| `Scenarios.ThroughGateway` | src/lib/ip.c:324-350 | on a host with an interface and a default gateway, packets for the subnet, broadcasts aside, are framed to the neighbour and all others to the gateway, or the one frame asks for it |
| `Scenarios.BroadcastArrives` | src/lib/ip.c:274-285 | a datagram to the subnet's broadcast address arrives at every host with an interface in the subnet |
| `Scenarios.PingAnswered` | src/lib/icmp.c:91-148 | a ping by frame is answered by exactly one frame, to the hop towards the requester, with the echo reply of the same code, values and data |
| `EndToEnd.IcmpUnderstood` | src/lib/ip.c:243-272 | a padded ICMP packet is answered to its sender iff it is an echo request for this host, and has no effect otherwise |
| `EndToEnd.EchoAnswered` | src/lib/icmp.c:91-124 | what leaves for an ICMP message answers a valid echo request with the same code, values and data, to its sender |
| `EndToEnd.EchoLeavesIff` | src/lib/icmp.c:91-124 | a reply leaves iff the message is a valid echo request and the reply departs |
| `Draining.TurnShrinks` | src/lib/net.c:219-237 | if handlers push back less weight than they take, a turn of the loop lowers the queue's weight |
| `Draining.DrainQueue` | src/lib/net.c:219-237 | a queue's drain dispatches its entries and then those pushed back, in order, each once, at most as many as its weight |
| `Draining.DrainedByTurns` | src/lib/net.c:219-237 | the drain is a chain of handler calls on exactly the dispatched entries, whose pushes are exactly the pushed ones |
| `Draining.YieldIsDrained` | src/lib/net.c:219-237 | what a queued entry makes its handler push is itself dispatched in the same drain |
| `Draining.QuietDrain` | src/lib/net.c:219-237 | a queue whose entries push nothing is drained by doing them in order |
| `Draining.Network.constructor` | src/lib/net.c:319-326 | no protocol is registered at the start |
| `Draining.Network.Register` | src/lib/net.c:186-206 | a protocol is put in front iff its type is new |
| `Draining.Network.InputHandler` | src/lib/net.c:158-183 | the entry is appended to the linked queue of its type and to no other |
| `Draining.Network.Turn` | src/lib/net.c:219-237 | one turn pops the first entry of the linked queue, runs the handler and takes back what it pushed, leaving other queues alone |
| `Draining.Network.DrainOne` | src/lib/net.c:219-237 | the inner loop ends with this queue empty, having done exactly its drain |
| `Draining.Network.ProtocolHandler` | src/lib/net.c:219-237 | the loop over the protocols ends with all queues empty, each drained from the state the one before left |
| `Drain.EchoReplyIsLight` | src/lib/icmp.c:113-123 | a reply that loops back is not an echo request |
| `Drain.HandleLoopsLighter` | device/loopback.c:22-28 | whatever a handler sends back through loopback has the same type, less weight than what it handled, and is no overrun |
| `Drain.StackLoopsDown` | device/loopback.c:22-28 | so the stack's handlers satisfy the condition under which the loop ends |
| `Drain.StackDrains` | src/lib/net.c:219-237 | for every host, clock and queue without an overrun ICMP packet the drain dispatches the queue and then at most as many looped entries, in order, and never meets an overrun |
| `Drain.PushesWhatLoops` | device/loopback.c:22-28 | a handler call leaves the handler's host and pushes exactly what it sends through loopback, once |
| `Drain.LoopbackEchoDrained` | src/lib/icmp.c:113-123 | the reply to a queued echo request over loopback is pushed and dispatched in the same drain, whatever else is queued |
| `Drain.DatagramsDrained` | src/lib/net.c:219-237 | draining a queue of datagrams for this host takes every one in, in order, and pushes nothing |
| `Drain.Initialise` | src/lib/net.c:319-326 | IP and ARP are registered with empty queues |
| `Drain.ArriveAndDrain` | src/lib/net.c:158-237 | for any such arrivals, IP entries are drained in arrival order and then ARP entries on the resulting host |
| `Text.StringToAddress` | src/lib/ip.c:47-65 | the loop accepts exactly four fields in range with dots between, for any number reader |
| `Text.EtherAddrPton` | src/lib/ether.c:20-42 | the loop accepts exactly six fields in range with colons between and then fills the buffer with them |
| `Text.FieldsRoundTrip` | src/lib/ip.c:47-72 | any fields printed with a separator the reader stops at are read back |
| `Text.StrToLBlank` | src/lib/ip.c:54 | the library function skips white space and reads the longest run of digits |
| `Text.StrToLMinus` | src/lib/ip.c:54 | a minus sign negates the number, so the parsers refuse it unless it is zero |
| `Text.AcceptedFields` | src/lib/ip.c:47-65 | whatever the field parser accepts is exactly that many nonempty pieces with separators between, each read as its byte |
| `Text.FieldsAccepted` | src/lib/ip.c:47-65 | and every such string is accepted with those bytes |
| `Text.AddressRoundTrip` | src/lib/ip.c:47-72 | every printed IPv4 address parses back |
| `Text.MacRoundTrip` | src/lib/ether.c:20-66 | every printed Ethernet address parses back |
| `Text.EndpointRoundTrip` | src/lib/ip.c:74-101 | a printed endpoint parses back iff its port is nonzero and is refused otherwise |
| `Text.EndpointAcceptedIff` | src/lib/ip.c:74-93 | an endpoint is accepted iff an address comes before the last colon and a number from 1 to 65535 after it |
| `Text.EndpointNeedsColon` | src/lib/ip.c:79-82 | without a colon nothing is accepted |
| `Text.PrintedFormsFit` | src/lib/ip.c:67-101 | every printed form with its terminator fits 16, 18 and 22 bytes |

## Left out

- ArpTable.Table.Timer: not between the halves of `arp_input`, because one thread runs both.
- Handshake.RetryArrives: the frames of the exchange are handled one after the other on two hosts, with nothing in between.
- UdpTable.Table.Close: takes the result of destroying the condition variable as a parameter; the theorems about runs fix it to -1 while threads wait, as the caller expects.
- Drain.HandleLoopsLighter: an ICMP packet whose header length exceeds its total length is dropped by the model; the source reads past it, and what it then does is not modelled. The same holds for Drain.StackLoopsDown.
- Text.StringToAddress: bytes written before a malformed field is met are not described; neither are they for Text.EtherAddrPton.
- Text.EndpointRoundTrip: an address part longer than its 15-character buffer is refused, where the C code copies it regardless. The same holds for Text.EndpointAcceptedIff.
- Queues.QueueHead.Push: `num` is unbounded, allocation succeeds, and a null queue is not modelled.
- Sockets: `sock_bind`, `sock_sendto` and `sock_recvfrom` are steps of the socket machine without a method of their own; `SockCalls` states what each does. The socket table is used by one thread at a time.
- Wire formats: a little-endian host throughout; the zero-checksum rule of RFC 768 is not claimed, as the code does not follow it.
- Fragments and IP options: fragments are dropped as in the code, options are never produced.
- Devices: `handler/tap.c`, `handler/pcap.c` and `handler/interrupt.c` are not part of this model; a device is a byte-sequence wire or the loopback.
- Timers and events: only what the ARP timer and the UDP event handler do, not when they fire.
- TCP: stream sockets have no behaviour in the source.
- Diagnostics, applications, allocation failure, null arguments, `errno` and device names.
