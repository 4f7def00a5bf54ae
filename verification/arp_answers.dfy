/** When interleaving spoils the answers of `arp_resolve`: for every history with a clock that
    never goes back, exactly when a step evicts the current one of two resolved entries for
    an address. */
module ArpAnswers {
  import opened Options
  import opened Words
  import opened ArpCache
  import opened ArpRuns

  /** What `gettimeofday` promises. */
  predicate ClockNeverGoesBack(ops: seq<Op>) {
    forall j, k :: 0 <= j < k < |ops| ==> Micros(ops[j].now) <= Micros(ops[k].now)
  }

  /** Every answer is the sender hardware address of the most recent message from its address. */
  ghost predicate RightAnswers(ops: seq<Op>) {
    forall now: Time, pa: u32 ::
      var a := Resolve(Run(ops).cache, now, pa).1;
      a.Found? ==> LastHeard(ops, pa) == Some(a.ha)
  }

  /** The operation takes a slot by `arp_cache_alloc`. */
  predicate Allocates(s: State, op: Op) {
    match op
    case Ask(_, pa) => Select(s.cache, pa) == |s.cache|
    case SecondHalf(_) => s.halfway.Some? && s.halfway.value.mine && !s.halfway.value.merged
    case _ => false
  }

  /** A later resolved entry for the same address, with another hardware address. */
  predicate Contradicts(c: seq<Entry>, a: nat, i: nat) {
    a < i < |c| && c[a].state == Resolved && c[i].state == Resolved && c[i].pa == c[a].pa && c[i].ha != c[a].ha
  }

  /** The slot taken holds the first of two resolved entries that contradict each other. */
  ghost predicate Uncovers(s: State, op: Op) {
    Allocates(s, op) && exists i: nat :: Contradicts(s.cache, Alloc(s.cache), i)
  }

  // ---------------------------------------------------------------- stale entries are shadowed

  ghost predicate StampsPast(ops: seq<Op>, c: seq<Entry>) {
    forall i :: 0 <= i < |c| && c[i].state != Free ==> ops != [] && Micros(c[i].stamp) <= Micros(Last(ops).now)
  }

  predicate IsLast(ops: seq<Op>, e: Entry) {
    e.state == Resolved && LastHeard(ops, e.pa) == Some(e.ha)
  }

  /** Entry `j` comes first, is not older, and holds what was last heard. */
  predicate Shadows(ops: seq<Op>, c: seq<Entry>, j: nat, i: nat)
    requires i < |c|
  {
    j < i && IsLast(ops, c[j]) && c[j].pa == c[i].pa && Micros(c[j].stamp) >= Micros(c[i].stamp)
  }

  ghost predicate StaleIsShadowed(ops: seq<Op>, c: seq<Entry>) {
    forall i :: 0 <= i < |c| && c[i].state == Resolved && !IsLast(ops, c[i]) ==> exists j: nat :: Shadows(ops, c, j, i)
  }

  ghost predicate UnheardBetween(ops: seq<Op>) {
    var s := Run(ops);
    s.halfway.Some? && !s.halfway.value.merged ==>
      var m := s.halfway.value.msg;
      && LastHeard(ops, m.spa) == Some(m.sha)
      && forall i :: 0 <= i < |s.cache| && s.cache[i].state == Resolved ==> s.cache[i].pa != m.spa
  }

  ghost predicate ShadowInv(ops: seq<Op>) {
    StampsPast(ops, Run(ops).cache) && StaleIsShadowed(ops, Run(ops).cache) && UnheardBetween(ops)
  }

  ghost predicate ShadowStep(ops: seq<Op>) {
    && ops != [] && ShadowInv(Front(ops)) && !Uncovers(Run(Front(ops)), Last(ops))
    && (|ops| > 1 ==> Micros(Last(Front(ops)).now) <= Micros(Last(ops).now))
  }

  /** No step of the history uncovers a stale entry. */
  ghost predicate NeverUncovers(ops: seq<Op>) {
    forall n :: 0 <= n < |ops| ==> !Uncovers(Run(ops[..n]), ops[n])
  }

  lemma NeverUncoversFront(ops: seq<Op>)
    requires ops != [] && NeverUncovers(ops)
    ensures NeverUncovers(Front(ops)) && !Uncovers(Run(Front(ops)), Last(ops))
  {
    forall n | 0 <= n < |Front(ops)| ensures !Uncovers(Run(Front(ops)[..n]), Front(ops)[n]) {
      assert Front(ops)[..n] == ops[..n];
    }
    assert ops[..|ops| - 1] == Front(ops);
  }

  lemma {:induction false} ShadowRun(ops: seq<Op>)
    requires ClockNeverGoesBack(ops) && NeverUncovers(ops)
    ensures ShadowInv(ops)
    decreases |ops|
  {
    if ops == [] {
    } else {
      NeverUncoversFront(ops);
      ShadowRun(Front(ops));
      assert |ops| > 1 ==> Micros(Last(Front(ops)).now) <= Micros(Last(ops).now);
      match Last(ops)
      case FirstHalf(_, _, _) => ShadowFirst(ops);
      case SecondHalf(_) => ShadowAlloc(ops);
      case Ask(_, _) => ShadowAlloc(ops);
      case Tick(_) => ShadowTick(ops);
    }
  }

  lemma ShadowFirst(ops: seq<Op>)
    requires ShadowStep(ops) && Last(ops).FirstHalf?
    ensures ShadowInv(ops)
  {
    var s, c' := Run(Front(ops)), Run(ops).cache;
    var c, pa := s.cache, Last(ops).msg.spa;
    var f := Select(c, pa);
    forall i | 0 <= i < |c'| && c'[i].state == Resolved && !IsLast(ops, c'[i])
      ensures exists j: nat :: Shadows(ops, c', j, i)
    {
      if s.halfway.None? && c'[i].pa == pa {
        assert Shadows(ops, c', f, i);
      } else {
        var j: nat :| Shadows(Front(ops), c, j, i);
        assert Shadows(ops, c', j, i);
      }
    }
  }

  /** An allocation that uncovers nothing takes no shadow. */
  lemma ShadowAlloc(ops: seq<Op>)
    requires ShadowStep(ops) && (Last(ops).SecondHalf? || Last(ops).Ask?)
    ensures ShadowInv(ops)
  {
    var s, c' := Run(Front(ops)), Run(ops).cache;
    var c := s.cache;
    forall i | 0 <= i < |c'| && c'[i].state == Resolved && !IsLast(ops, c'[i])
      ensures exists j: nat :: Shadows(ops, c', j, i)
    {
      var j: nat :| Shadows(Front(ops), c, j, i);
      assert Allocates(s, Last(ops)) && j == Alloc(c) ==> Contradicts(c, j, i);
      assert Shadows(ops, c', j, i);
    }
  }

  lemma ShadowTick(ops: seq<Op>)
    requires ShadowStep(ops) && Last(ops).Tick?
    ensures ShadowInv(ops)
  {
    var c, c' := Run(Front(ops)).cache, Run(ops).cache;
    forall i | 0 <= i < |c'| && c'[i].state == Resolved && !IsLast(ops, c'[i])
      ensures exists j: nat :: Shadows(ops, c', j, i)
    {
      var j: nat :| Shadows(Front(ops), c, j, i);
      SweepKeepsYoung(c, Last(ops).now, i);
      SweepKeepsYoung(c, Last(ops).now, j);
      assert Shadows(ops, c', j, i);
    }
  }

  lemma ShadowedAnswersRight(ops: seq<Op>)
    requires ShadowInv(ops)
    ensures RightAnswers(ops)
  {
    NeverStatic(ops);
  }

  // ---------------------------------------------------------------- uncovering gives a wrong answer

  lemma NoThird(c: seq<Entry>, i: nat, j: nat, k: nat)
    requires AtMostTwo(c) && i < j < k < |c|
    ensures !(Same(c[i], c[j]) && Same(c[j], c[k]))
  {
  }

  /** Of two contradicting entries the first is the current one. */
  lemma FirstIsCurrent(ops: seq<Op>, a: nat, i: nat)
    requires ShadowInv(ops) && Contradicts(Run(ops).cache, a, i)
    ensures var c := Run(ops).cache;
            IsLast(ops, c[a]) && !IsLast(ops, c[i]) && Micros(c[a].stamp) >= Micros(c[i].stamp)
  {
    var c := Run(ops).cache;
    InterleavedInv(ops);
    if !IsLast(ops, c[a]) {
      var j: nat :| Shadows(ops, c, j, a);
      NoThird(c, j, a, i);
    } else {
      var j: nat :| Shadows(ops, c, j, i);
      if j < a { NoThird(c, j, a, i); }
      if a < j { NoThird(c, a, j, i); }
    }
  }

  /** Of two entries for an address the second answers once the first is gone. */
  lemma SurvivorAnswers(c: seq<Entry>, a: nat, i: nat, e: Entry, now: Time)
    requires AtMostTwo(c) && Contradicts(c, a, i) && e.pa != c[a].pa
    ensures Resolve(c[a := e], now, c[a].pa).1 == Found(c[i].ha)
  {
    var c', pa := c[a := e], c[a].pa;
    forall j | 0 <= j < i ensures !Live(c'[j], pa) {
      assert j < a && Live(c[j], pa) ==> Same(c[j], c[a]) && Same(c[a], c[i]);
      assert a < j && Live(c[j], pa) ==> Same(c[a], c[j]) && Same(c[j], c[i]);
    }
    assert Live(c'[i], pa);
  }

  /** What an allocating step writes is for another address. */
  lemma WrittenElsewhere(ops: seq<Op>, i: nat)
    requires ops != [] && ShadowInv(Front(ops)) && Allocates(Run(Front(ops)), Last(ops))
    requires Contradicts(Run(Front(ops)).cache, Alloc(Run(Front(ops)).cache), i)
    ensures var c := Run(Front(ops)).cache;
            exists e: Entry :: e.pa != c[Alloc(c)].pa && Run(ops).cache == c[Alloc(c) := e]
  {
    var c, c' := Run(Front(ops)).cache, Run(ops).cache;
    var e := c'[Alloc(c)];
    assert Last(ops).Ask? ==> !Live(c[Alloc(c)], Last(ops).pa);
    assert e.pa != c[Alloc(c)].pa && c' == c[Alloc(c) := e];
  }

  /** After the eviction of the current entry the stale one answers. */
  lemma UncoveringIsWrong(ops: seq<Op>)
    requires ops != [] && ShadowInv(Front(ops)) && Uncovers(Run(Front(ops)), Last(ops))
    ensures !RightAnswers(ops)
  {
    var c := Run(Front(ops)).cache;
    var a := Alloc(c);
    var i: nat :| Contradicts(c, a, i);
    FirstIsCurrent(Front(ops), a, i);
    InterleavedInv(Front(ops));
    WrittenElsewhere(ops, i);
    var e: Entry :| e.pa != c[a].pa && Run(ops).cache == c[a := e];
    SurvivorAnswers(c, a, i, e, Last(ops).now);
  }

  lemma WrongAfter(ops: seq<Op>, n: nat)
    requires ClockNeverGoesBack(ops) && n < |ops| && NeverUncovers(ops[..n]) && Uncovers(Run(ops[..n]), ops[n])
    ensures !RightAnswers(ops[..n + 1])
  {
    ShadowRun(ops[..n]);
    assert Front(ops[..n + 1]) == ops[..n] && Last(ops[..n + 1]) == ops[n];
    UncoveringIsWrong(ops[..n + 1]);
  }

  /** If a step uncovers a stale entry, an answer is wrong right after the first such step. */
  lemma {:induction false} WrongSomewhere(ops: seq<Op>, n: nat) returns (k: nat)
    requires ClockNeverGoesBack(ops) && n < |ops| && Uncovers(Run(ops[..n]), ops[n])
    ensures k <= |ops| && !RightAnswers(ops[..k])
    decreases n
  {
    if NeverUncovers(ops[..n]) {
      WrongAfter(ops, n);
      k := n + 1;
    } else {
      var m :| 0 <= m < n && Uncovers(Run(ops[..n][..m]), ops[..n][m]);
      assert ops[..n][..m] == ops[..m];
      k := WrongSomewhere(ops, m);
    }
  }

  /** The exact condition, for every interleaving under a clock that never goes back: the
      answers are right throughout a history if and only if no step of it allocates the slot
      of a resolved entry that a later entry contradicts. */
  lemma InterleavedAnswersIff(ops: seq<Op>)
    requires ClockNeverGoesBack(ops)
    ensures NeverUncovers(ops) <==> forall n :: 0 <= n <= |ops| ==> RightAnswers(ops[..n])
  {
    if NeverUncovers(ops) {
      forall n | 0 <= n <= |ops| ensures RightAnswers(ops[..n]) {
        forall m | 0 <= m < n ensures !Uncovers(Run(ops[..n][..m]), ops[..n][m]) {
          assert ops[..n][..m] == ops[..m];
        }
        ShadowRun(ops[..n]);
        ShadowedAnswersRight(ops[..n]);
      }
    } else {
      var n :| 0 <= n < |ops| && Uncovers(Run(ops[..n]), ops[n]);
      var k := WrongSomewhere(ops, n);
    }
  }

  // ---------------------------------------------------------------- a strictly increasing clock

  predicate ClockIncreases(ops: seq<Op>) {
    forall j, k :: 0 <= j < k < |ops| ==> Micros(ops[j].now) < Micros(ops[k].now)
  }

  ghost predicate StampsDiffer(c: seq<Entry>) {
    forall i, j :: 0 <= i < j < |c| && c[i].state != Free && c[j].state != Free ==>
      Micros(c[i].stamp) != Micros(c[j].stamp)
  }

  /** One entry gets the current time and the others stay or are cleared. */
  predicate WritesOne(c: seq<Entry>, c': seq<Entry>, now: Time, w: nat) {
    && |c'| == |c|
    && forall i :: 0 <= i < |c| ==> c'[i] == c[i] || c'[i].state == Free || (i == w && c'[i].stamp == now)
  }

  lemma StepWritesOne(s: State, op: Op)
    requires |s.cache| == CACHE_SIZE
    ensures exists w: nat :: WritesOne(s.cache, Next(s, op).cache, op.now, w)
  {
    var w := match op
      case FirstHalf(_, m, _) => Select(s.cache, m.spa)
      case _ => Alloc(s.cache);
    assert WritesOne(s.cache, Next(s, op).cache, op.now, w);
  }

  /** Under a strict clock no two entries have the same timestamp. */
  lemma {:induction false} StrictStamps(ops: seq<Op>)
    requires ClockIncreases(ops)
    ensures StampsPast(ops, Run(ops).cache) && StampsDiffer(Run(ops).cache)
    decreases |ops|
  {
    if ops == [] {
    } else {
      StrictStamps(Front(ops));
      assert |ops| > 1 ==> Micros(Last(Front(ops)).now) < Micros(Last(ops).now);
      StepWritesOne(Run(Front(ops)), Last(ops));
      var w: nat :| WritesOne(Run(Front(ops)).cache, Run(ops).cache, Last(ops).now, w);
      StampsAfter(Run(Front(ops)).cache, Run(ops).cache, Last(ops).now, w);
    }
  }

  lemma StampsAfter(c: seq<Entry>, c': seq<Entry>, now: Time, w: nat)
    requires WritesOne(c, c', now, w) && StampsDiffer(c)
    requires forall i :: 0 <= i < |c| && c[i].state != Free ==> Micros(c[i].stamp) < Micros(now)
    ensures StampsDiffer(c')
    ensures forall i :: 0 <= i < |c'| && c'[i].state != Free ==> Micros(c'[i].stamp) <= Micros(now)
  {
  }

  /** Eviction takes an oldest entry, so uncovering needs a tie. */
  lemma UncoveringIsATie(ops: seq<Op>, op: Op)
    requires ShadowInv(ops) && Uncovers(Run(ops), op)
    ensures !StampsDiffer(Run(ops).cache)
  {
    var c := Run(ops).cache;
    var i: nat :| Contradicts(c, Alloc(c), i);
    FirstIsCurrent(ops, Alloc(c), i);
    AllocChoice(c);
  }

  lemma {:induction false} StrictNeverUncovers(ops: seq<Op>, n: nat)
    requires ClockIncreases(ops) && n < |ops|
    ensures !Uncovers(Run(ops[..n]), ops[n])
    decreases n
  {
    forall m | 0 <= m < n ensures !Uncovers(Run(ops[..n][..m]), ops[..n][m]) {
      StrictNeverUncovers(ops, m);
      assert ops[..n][..m] == ops[..m];
    }
    ShadowRun(ops[..n]);
    StrictStamps(ops[..n]);
    if Uncovers(Run(ops[..n]), ops[n]) { UncoveringIsATie(ops[..n], ops[n]); }
  }

  /** If the clock strictly increases from one locked region to the next, interleaving never
      spoils an answer. */
  lemma InterleavedAnswers(ops: seq<Op>, now: Time, pa: u32)
    requires ClockIncreases(ops)
    ensures var a := Resolve(Run(ops).cache, now, pa).1;
            a.Found? ==> LastHeard(ops, pa) == Some(a.ha)
  {
    forall n | 0 <= n < |ops| ensures !Uncovers(Run(ops[..n]), ops[n]) {
      StrictNeverUncovers(ops, n);
    }
    InterleavedAnswersIff(ops);
    assert ops[..|ops|] == ops;
  }
}
