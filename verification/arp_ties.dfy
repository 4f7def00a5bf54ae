/** The condition of `ArpAnswers.InterleavedAnswersIff` can fail: with equal timestamps,
    eviction can take the current one of two entries for an address and leave the stale one
    to answer. */
module ArpTies {
  import opened Options
  import opened Words
  import opened ArpCache
  import opened ArpRuns
  import opened ArpAnswers

  const T0: Time := Timeval(0, 0)
  const T1: Time := Timeval(1, 0)
  const PEER: u32 := 100
  const OLD_MAC: Mac := [0, 0, 0, 0, 0, 1]
  const NEW_MAC: Mac := [0, 0, 0, 0, 0, 2]

  /** The first message finds no entry, `arp_resolve` makes one before it is inserted, and a
      second message from the same peer then updates that one: all within one tick. */
  function Start(): seq<Op> {
    [FirstHalf(T0, Message(OLD_MAC, PEER, 0, false), true), Ask(T0, PEER), SecondHalf(T0),
     FirstHalf(T0, Message(NEW_MAC, PEER, 0, false), true), SecondHalf(T0)]
  }

  /** Then the addresses 1 to `n` are asked for. */
  function History(n: nat): seq<Op>
    requires n <= 31
    decreases n
  {
    if n == 0 then Start() else History(n - 1) + [Ask(T1, n)]
  }

  /** The cache after the start and `n` further requests. */
  function Layout(n: nat): (c: seq<Entry>)
    requires n <= 30
    ensures |c| == CACHE_SIZE
  {
    seq(CACHE_SIZE, i requires 0 <= i < CACHE_SIZE =>
      if i == 0 then Entry(Resolved, PEER, NEW_MAC, T0)
      else if i == 1 then Entry(Resolved, PEER, OLD_MAC, T0)
      else if i < n + 2 then Entry(Incomplete, i - 1, MAC_ZERO, T1)
      else CLEARED)
  }

  lemma Extend(ops: seq<Op>, op: Op)
    ensures Run(ops + [op]) == Next(Run(ops), op)
    ensures !op.FirstHalf? ==> LastHeard(ops + [op], PEER) == LastHeard(ops, PEER)
  {
  }

  lemma FirstFree(c: seq<Entry>, i: nat)
    requires i < |c| && c[i].state == Free && forall j :: 0 <= j < i ==> c[j].state != Free
    ensures Alloc(c) == i
  {
    AllocChoice(c);
  }

  lemma Started()
    ensures Run(Start()) == State(Layout(0), None) && LastHeard(Start(), PEER) == Some(NEW_MAC)
  {
    var o := Start();
    var s0 := Init();
    var s1 := Next(s0, o[0]);
    assert s1.cache == s0.cache && s1.halfway == Some(Waiting(o[0].msg, false, true));
    FirstFree(s1.cache, 0);
    var s2 := Next(s1, o[1]);
    assert s2.cache == s0.cache[0 := Entry(Incomplete, PEER, MAC_ZERO, T0)];
    FirstFree(s2.cache, 1);
    var s3 := Next(s2, o[2]);
    assert s3.cache == s2.cache[1 := Entry(Resolved, PEER, OLD_MAC, T0)] && s3.halfway == None;
    var s4 := Next(s3, o[3]);
    assert s4.cache == Layout(0) && s4.halfway == Some(Waiting(o[3].msg, true, true));
    var s5 := Next(s4, o[4]);
    StartedRun(o, s1, s2, s3, s4);
  }

  lemma StartedRun(o: seq<Op>, s1: State, s2: State, s3: State, s4: State)
    requires o == Start() && |s1.cache| == |s2.cache| == |s3.cache| == CACHE_SIZE
    requires s1 == Next(Init(), o[0]) && s2 == Next(s1, o[1]) && s3 == Next(s2, o[2]) && s4 == Next(s3, o[3])
    requires s3.halfway == None
    ensures Run(o) == Next(s4, o[4]) && LastHeard(o, PEER) == Some(NEW_MAC)
  {
    assert o[..1] == [] + [o[0]] && o[..2] == o[..1] + [o[1]] && o[..3] == o[..2] + [o[2]];
    assert o[..4] == o[..3] + [o[3]] && o == o[..4] + [o[4]];
    Extend([], o[0]);
    Extend(o[..1], o[1]);
    Extend(o[..2], o[2]);
    Extend(o[..3], o[3]);
    Extend(o[..4], o[4]);
    assert o[..4][..3] == o[..3];
  }

  /** Asking for an unknown address takes the first free entry. */
  lemma AskTakes(c: seq<Entry>, now: Time, pa: u32, i: nat)
    requires i < |c| == CACHE_SIZE && c[i].state == Free && forall j :: 0 <= j < i ==> c[j].state != Free
    requires forall j :: 0 <= j < |c| ==> !Live(c[j], pa)
    ensures Next(State(c, None), Ask(now, pa)) == State(c[i := Entry(Incomplete, pa, c[i].ha, now)], None)
  {
    FirstFree(c, i);
  }

  lemma LayoutGrows(n: nat)
    requires n < 30
    ensures Next(State(Layout(n), None), Ask(T1, n + 1)) == State(Layout(n + 1), None)
  {
    var c := Layout(n);
    AskTakes(c, T1, n + 1, n + 2);
    assert c[n + 2 := Entry(Incomplete, n + 1, MAC_ZERO, T1)] == Layout(n + 1);
  }

  lemma {:induction false} Filled(n: nat)
    requires n <= 30
    ensures Run(History(n)) == State(Layout(n), None) && LastHeard(History(n), PEER) == Some(NEW_MAC)
    decreases n
  {
    if n == 0 {
      Started();
    } else {
      Filled(n - 1);
      Extend(History(n - 1), Ask(T1, n));
      LayoutGrows(n - 1);
    }
  }

  /** The scan keeps the first entry if none is strictly older. */
  lemma {:induction false} FirstStaysOldest(c: seq<Entry>, k: nat)
    requires 0 < k <= |c| && forall j :: 0 <= j < |c| ==> c[j].state != Free && !Later(c[0].stamp, c[j].stamp)
    ensures AllocFrom(c, k, 0) == 0
    decreases |c| - k
  {
    if k == |c| {
    } else {
      FirstStaysOldest(c, k + 1);
    }
  }

  lemma {:induction false} HistoryClock(n: nat)
    requires n <= 31
    ensures ClockNeverGoesBack(History(n))
    ensures forall j :: 0 <= j < |History(n)| ==> Micros(History(n)[j].now) <= Micros(T1)
    decreases n
  {
    if n == 0 {
    } else {
      HistoryClock(n - 1);
    }
  }

  /** Asking a full cache for an unknown address reuses the first entry; the second then
      answers for its own address. */
  lemma EvictsFirst(c: seq<Entry>, now: Time, pa: u32, other: u32)
    requires |c| > 1 && other != pa && forall j :: 0 <= j < |c| ==> !Live(c[j], other)
    requires forall j :: 0 <= j < |c| ==> c[j].state != Free && !Later(c[0].stamp, c[j].stamp)
    requires c[1].state == Resolved && c[1].pa == pa
    ensures Select(Resolve(c, now, other).0, pa) == 1 && Resolve(c, now, other).0[1] == c[1]
  {
    FirstStaysOldest(c, 1);
    var d := Resolve(c, now, other).0;
    assert d == c[0 := Entry(Incomplete, other, c[0].ha, now)];
    assert Live(d[1], pa) && !Live(d[0], pa);
  }

  lemma FullLayout(n: nat, now: Time)
    requires n == CACHE_SIZE - 2
    ensures Resolve(Next(State(Layout(n), None), Ask(T1, n + 1)).cache, now, PEER).1 == Found(OLD_MAC)
  {
    EvictsFirst(Layout(n), T1, PEER, n + 1);
  }

  lemma StaleAfter(n: nat, now: Time)
    requires n == CACHE_SIZE - 2
    ensures Resolve(Run(History(n + 1)).cache, now, PEER).1 == Found(OLD_MAC)
    ensures LastHeard(History(n + 1), PEER) == Some(NEW_MAC)
  {
    var ask := Ask(T1, n + 1);
    assert History(n + 1) == History(n) + [ask];
    Filled(n);
    Extend(History(n), ask);
    FullLayout(n, now);
  }

  /** A history with a clock that never goes back after which `arp_resolve` answers with the
      address of an older message. */
  lemma StaleAnswer(now: Time) returns (ops: seq<Op>)
    ensures ClockNeverGoesBack(ops)
    ensures Resolve(Run(ops).cache, now, PEER).1 == Found(OLD_MAC)
    ensures LastHeard(ops, PEER) == Some(NEW_MAC)
    ensures !NeverUncovers(ops)
  {
    var n: nat := CACHE_SIZE - 2;
    ops := History(n + 1);
    StaleAfter(n, now);
    HistoryClock(n + 1);
    WrongUncovers(ops, now);
  }

  lemma WrongUncovers(ops: seq<Op>, now: Time)
    requires ClockNeverGoesBack(ops)
    requires Resolve(Run(ops).cache, now, PEER).1 == Found(OLD_MAC) && LastHeard(ops, PEER) == Some(NEW_MAC)
    ensures !NeverUncovers(ops)
  {
    InterleavedAnswersIff(ops);
    assert ops[..|ops|] == ops;
  }
}
