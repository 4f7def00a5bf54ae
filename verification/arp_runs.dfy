/** What holds of the ARP cache over every history: with `arp_input` atomic, and with
    `arp_resolve` calls between its halves. */
module ArpRuns {
  import opened Options
  import opened Words
  import opened ArpCache

  function Front(ops: seq<Op>): seq<Op>
    requires ops != []
  {
    ops[..|ops| - 1]
  }

  function Last(ops: seq<Op>): Op
    requires ops != []
  {
    ops[|ops| - 1]
  }

  /** The last operation is a message the handler thread takes in. */
  predicate Takes(ops: seq<Op>) {
    ops != [] && Last(ops).FirstHalf? && Run(Front(ops)).halfway.None?
  }

  predicate AtMostOne(c: seq<Entry>, pa: u32) {
    forall i, j :: 0 <= i < |c| && 0 <= j < |c| && Live(c[i], pa) && Live(c[j], pa) ==> i == j
  }

  predicate NobodyAt(c: seq<Entry>, pa: u32) {
    forall i :: 0 <= i < |c| ==> !Live(c[i], pa)
  }

  predicate NoStatic(c: seq<Entry>) {
    forall i :: 0 <= i < |c| ==> c[i].state != Static
  }

  /** Only messages make entries resolved and nothing makes them static. */
  lemma {:induction false} NeverStatic(ops: seq<Op>)
    ensures NoStatic(Run(ops).cache)
    decreases |ops|
  {
    if ops == [] {
    } else {
      NeverStatic(Front(ops));
    }
  }

  // ---------------------------------------------------------------- atomic input

  /** Every first half is followed at once by its second half. */
  predicate Atomic(ops: seq<Op>) {
    forall k :: 0 <= k < |ops| - 1 && ops[k].FirstHalf? ==> ops[k + 1].SecondHalf?
  }

  ghost predicate Distinct(c: seq<Entry>) {
    forall pa :: AtMostOne(c, pa)
  }

  /** Every resolved entry holds what was last heard from its address. */
  ghost predicate Current(ops: seq<Op>, c: seq<Entry>) {
    forall i :: 0 <= i < |c| && c[i].state == Resolved ==> LastHeard(ops, c[i].pa) == Some(c[i].ha)
  }

  ghost predicate HalfwayOk(ops: seq<Op>) {
    var s := Run(ops);
    s.halfway.Some? ==>
      && Takes(ops)
      && s.halfway.value.msg == Last(ops).msg
      && (!s.halfway.value.merged ==> NobodyAt(s.cache, s.halfway.value.msg.spa))
  }

  /** The invariant of atomic histories. */
  lemma {:induction false} AtomicInv(ops: seq<Op>)
    requires Atomic(ops)
    ensures Distinct(Run(ops).cache) && Current(ops, Run(ops).cache) && HalfwayOk(ops)
    decreases |ops|
  {
    if ops == [] {
      return;
    }
    AtomicInv(Front(ops));
    var s, op := Run(Front(ops)), Last(ops);
    match op
    case FirstHalf(now, m, mine) => AtomicFirst(ops);
    case SecondHalf(now) => AtomicSecond(ops);
    case Ask(now, pa) => AtomicAsk(ops);
    case Tick(now) => AtomicTick(ops);
  }

  lemma NotHalfway(ops: seq<Op>)
    requires ops != [] && Atomic(ops) && !Last(ops).SecondHalf? && HalfwayOk(Front(ops))
    ensures Run(Front(ops)).halfway.None?
  {
  }

  lemma AtomicFirst(ops: seq<Op>)
    requires ops != [] && Atomic(ops) && Last(ops).FirstHalf?
    requires var c := Run(Front(ops)).cache; Distinct(c) && Current(Front(ops), c) && HalfwayOk(Front(ops))
    ensures Distinct(Run(ops).cache) && Current(ops, Run(ops).cache) && HalfwayOk(ops)
  {
    var s, m := Run(Front(ops)), Last(ops).msg;
    NotHalfway(ops);
    var c, c' := s.cache, Run(ops).cache;
    forall pa ensures AtMostOne(c', pa) {
      assert AtMostOne(c, pa);
    }
    assert AtMostOne(c, m.spa);
  }

  lemma AtomicSecond(ops: seq<Op>)
    requires ops != [] && Last(ops).SecondHalf?
    requires var c := Run(Front(ops)).cache; Distinct(c) && Current(Front(ops), c) && HalfwayOk(Front(ops))
    ensures Distinct(Run(ops).cache) && Current(ops, Run(ops).cache) && HalfwayOk(ops)
  {
    var c, c' := Run(Front(ops)).cache, Run(ops).cache;
    forall pa ensures AtMostOne(c', pa) {
      assert AtMostOne(c, pa);
    }
  }

  lemma AtomicAsk(ops: seq<Op>)
    requires ops != [] && Atomic(ops) && Last(ops).Ask?
    requires var c := Run(Front(ops)).cache; Distinct(c) && Current(Front(ops), c) && HalfwayOk(Front(ops))
    ensures Distinct(Run(ops).cache) && Current(ops, Run(ops).cache) && HalfwayOk(ops)
  {
    var s := Run(Front(ops));
    NotHalfway(ops);
    var c, c' := s.cache, Run(ops).cache;
    forall pa ensures AtMostOne(c', pa) {
      assert AtMostOne(c, pa);
    }
  }

  lemma AtomicTick(ops: seq<Op>)
    requires ops != [] && Last(ops).Tick? && Atomic(ops)
    requires var c := Run(Front(ops)).cache; Distinct(c) && Current(Front(ops), c) && HalfwayOk(Front(ops))
    ensures Distinct(Run(ops).cache) && Current(ops, Run(ops).cache) && HalfwayOk(ops)
  {
    var s := Run(Front(ops));
    NotHalfway(ops);
    var c, c' := s.cache, Run(ops).cache;
    forall pa ensures AtMostOne(c', pa) {
      assert AtMostOne(c, pa);
    }
  }

  /** With atomic input, over every history: live entries have pairwise distinct addresses,
      and an answer of `arp_resolve` is the sender address of the most recent message from
      that address, although eviction leaves stale bytes in reused slots. */
  lemma AtomicAnswers(ops: seq<Op>, now: Time, pa: u32)
    requires Atomic(ops)
    ensures AtMostOne(Run(ops).cache, pa)
    ensures var a := Resolve(Run(ops).cache, now, pa).1;
            a.Found? ==> LastHeard(ops, pa) == Some(a.ha)
  {
    AtomicInv(ops);
    NeverStatic(ops);
  }

  // ---------------------------------------------------------------- interleaved input

  predicate Same(e: Entry, f: Entry) {
    e.state != Free && f.state != Free && e.pa == f.pa
  }

  predicate AtMostTwo(c: seq<Entry>) {
    forall i, j, k :: 0 <= i < j < k < |c| ==> !(Same(c[i], c[j]) && Same(c[j], c[k]))
  }

  /** `arp_resolve` created an entry for `pa` since the last message was taken in. */
  predicate CreatedSince(ops: seq<Op>, pa: u32)
    decreases |ops|
  {
    ops != [] && !Takes(ops)
    && ((Last(ops).Ask? && Last(ops).pa == pa && Resolve(Run(Front(ops)).cache, Last(ops).now, pa).1 == Pending(true))
        || CreatedSince(Front(ops), pa))
  }

  /** The sender address pairs of the messages that changed the cache. */
  function Accepted(ops: seq<Op>): set<(u32, Mac)>
    decreases |ops|
  {
    if ops == [] then {}
    else
      var s, op := Run(Front(ops)), Last(ops);
      var prev := Accepted(Front(ops));
      if Takes(ops) && Select(s.cache, op.msg.spa) < |s.cache| then prev + {(op.msg.spa, op.msg.sha)}
      else if op.SecondHalf? && s.halfway.Some? && s.halfway.value.mine && !s.halfway.value.merged then
        prev + {(s.halfway.value.msg.spa, s.halfway.value.msg.sha)}
      else prev
  }

  ghost predicate Provenance(ops: seq<Op>, c: seq<Entry>) {
    forall i :: 0 <= i < |c| && c[i].state == Resolved ==> (c[i].pa, c[i].ha) in Accepted(ops)
  }

  /** Between the halves of an unmerged message there is at most one entry for its sender,
      and then `arp_resolve` made it. */
  ghost predicate BetweenOk(ops: seq<Op>) {
    var s := Run(ops);
    s.halfway.Some? && !s.halfway.value.merged ==>
      var pa := s.halfway.value.msg.spa;
      AtMostOne(s.cache, pa) && (NobodyAt(s.cache, pa) || CreatedSince(ops, pa))
  }

  ghost predicate TwoInv(ops: seq<Op>) {
    AtMostTwo(Run(ops).cache) && Provenance(ops, Run(ops).cache) && BetweenOk(ops)
  }

  lemma {:induction false} InterleavedInv(ops: seq<Op>)
    ensures AtMostTwo(Run(ops).cache) && Provenance(ops, Run(ops).cache) && BetweenOk(ops)
    decreases |ops|
  {
    if ops == [] {
    } else {
      InterleavedInv(Front(ops));
      assert TwoInv(Front(ops));
      match Last(ops)
      case FirstHalf(_, _, _) => FirstKeepsTwo(ops);
      case SecondHalf(_) => SecondKeepsTwo(ops);
      case Ask(_, _) => AskKeepsTwo(ops);
      case Tick(_) => TickKeepsTwo(ops);
    }
  }

  lemma FirstKeepsTwo(ops: seq<Op>)
    requires ops != [] && Last(ops).FirstHalf? && TwoInv(Front(ops))
    ensures TwoInv(ops)
  {
    var s, c' := Run(Front(ops)), Run(ops).cache;
    if s.halfway.None? {
      SameAddressesKeepTwo(s.cache, c');
    }
  }

  lemma TickKeepsTwo(ops: seq<Op>)
    requires ops != [] && Last(ops).Tick? && TwoInv(Front(ops))
    ensures TwoInv(ops)
  {
    var s, c' := Run(Front(ops)), Run(ops).cache;
    if s.halfway.None? {
      SameAddressesKeepTwo(s.cache, c');
    }
  }

  /** Entries that keep their address, or become free, make no new duplicate. */
  lemma SameAddressesKeepTwo(c: seq<Entry>, c': seq<Entry>)
    requires AtMostTwo(c) && |c'| == |c|
    requires forall i :: 0 <= i < |c| ==> c'[i].state == Free || (c[i].state != Free && c'[i].pa == c[i].pa)
    ensures AtMostTwo(c')
  {
    forall i, j, k | 0 <= i < j < k < |c'| && Same(c'[i], c'[j]) && Same(c'[j], c'[k])
      ensures false
    {
      assert Same(c[i], c[j]) && Same(c[j], c[k]);
    }
  }

  lemma SecondKeepsTwo(ops: seq<Op>)
    requires ops != [] && Last(ops).SecondHalf?
    requires TwoInv(Front(ops))
    ensures TwoInv(ops)
  {
    var s, c' := Run(Front(ops)), Run(ops).cache;
    if s.halfway.Some? && s.halfway.value.mine && !s.halfway.value.merged {
      ReplacedKeepsTwo(s.cache, Alloc(s.cache), c'[Alloc(s.cache)]);
    }
  }

  lemma AskKeepsTwo(ops: seq<Op>)
    requires ops != [] && Last(ops).Ask?
    requires TwoInv(Front(ops))
    ensures TwoInv(ops)
  {
    var s, c' := Run(Front(ops)), Run(ops).cache;
    if Select(s.cache, Last(ops).pa) == |s.cache| {
      ReplacedKeepsTwo(s.cache, Alloc(s.cache), c'[Alloc(s.cache)]);
    }
  }

  /** Replacing one entry by one whose address had at most one live entry. */
  lemma ReplacedKeepsTwo(c: seq<Entry>, a: nat, e: Entry)
    requires AtMostTwo(c) && a < |c| && AtMostOne(c, e.pa)
    ensures AtMostTwo(c[a := e])
  {
  }

  /** With `arp_resolve` calls between the halves: no address ever has three live entries,
      and a resolved entry holds what some accepted message from its address said. */
  lemma InterleavedEntries(ops: seq<Op>)
    ensures AtMostTwo(Run(ops).cache)
    ensures forall i :: 0 <= i < CACHE_SIZE && Run(ops).cache[i].state == Resolved ==>
              (Run(ops).cache[i].pa, Run(ops).cache[i].ha) in Accepted(ops)
  {
    InterleavedInv(ops);
  }

  /** A second live entry for an address arises only from a second half whose message found
      none, after `arp_resolve` created one between the halves. */
  lemma DuplicateOrigin(ops: seq<Op>, pa: u32)
    requires ops != [] && AtMostOne(Run(Front(ops)).cache, pa) && !AtMostOne(Run(ops).cache, pa)
    ensures Last(ops).SecondHalf?
    ensures var h := Run(Front(ops)).halfway;
            h.Some? && h.value.msg.spa == pa && h.value.mine && !h.value.merged
    ensures CreatedSince(Front(ops), pa)
  {
    InterleavedInv(Front(ops));
    var s, c' := Run(Front(ops)), Run(ops).cache;
    assert AtMostOne(s.cache, pa);
  }

  // ---------------------------------------------------------------- ageing of requests

  /** Operation `k` of the history is the `arp_resolve` that created an entry for `pa`. */
  predicate CreatedAt(ops: seq<Op>, k: nat, pa: u32, at: Time) {
    k < |ops| && ops[k] == Ask(at, pa) && Resolve(Run(ops[..k]).cache, at, pa).1 == Pending(true)
  }

  lemma CreatedEarlier(ops: seq<Op>, k: nat, pa: u32, at: Time)
    requires ops != [] && CreatedAt(Front(ops), k, pa, at)
    ensures CreatedAt(ops, k, pa, at)
  {
    assert Front(ops)[..k] == ops[..k];
  }

  /** However often it is requested again, an incomplete entry keeps the timestamp of the
      call that created it. */
  lemma {:induction false} IncompleteKeepsCreation(ops: seq<Op>, i: nat) returns (k: nat)
    requires i < CACHE_SIZE && Run(ops).cache[i].state == Incomplete
    ensures CreatedAt(ops, k, Run(ops).cache[i].pa, Run(ops).cache[i].stamp)
    decreases |ops|
  {
    var c, e := Run(Front(ops)).cache, Run(ops).cache[i];
    if c[i] == e {
      k := IncompleteKeepsCreation(Front(ops), i);
      CreatedEarlier(ops, k, e.pa, e.stamp);
    } else {
      k := |ops| - 1;
      assert ops[..k] == Front(ops);
    }
  }

  /** After any sweep, an entry still unanswered was created less than 31 seconds before. */
  lemma UnansweredIsYoung(ops: seq<Op>, i: nat)
    requires ops != [] && Last(ops).Tick? && Run(Front(ops)).halfway.None?
    requires i < CACHE_SIZE && Run(ops).cache[i].state == Incomplete
    ensures var e := Run(ops).cache[i];
            && (exists k: nat :: CreatedAt(ops, k, e.pa, e.stamp))
            && Micros(Last(ops).now) - Micros(e.stamp) < 31_000_000
  {
    var k := IncompleteKeepsCreation(ops, i);
    SweepKeepsYoung(Run(Front(ops)).cache, Last(ops).now, i);
  }
}
