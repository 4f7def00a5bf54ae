/** The ARP cache (src/lib/arp.c).

    `arp_input` takes the lock twice and releases it in between; `FirstHalf` and
    `SecondHalf` are those two regions. The thread that runs `arp_input` also runs
    `arp_timer`, so only `arp_resolve`, called by other threads, can come between. */
module ArpCache {
  import opened Options
  import opened Words

  const CACHE_SIZE := 32
  const CACHE_TIMEOUT := 30
  const MICROS := 1_000_000

  type Mac = s: seq<u8> | |s| == 6 witness [0, 0, 0, 0, 0, 0]
  const MAC_ZERO: Mac := [0, 0, 0, 0, 0, 0]

  datatype RawTime = Timeval(sec: int, usec: int)

  /** A normalised `struct timeval`. */
  type Time = t: RawTime | 0 <= t.usec < MICROS witness Timeval(0, 0)

  function Micros(t: Time): int {
    t.sec * MICROS + t.usec
  }

  /** `timercmp(&a, &b, >)`. */
  predicate Later(a: Time, b: Time) {
    if a.sec == b.sec then a.usec > b.usec else a.sec > b.sec
  }

  /** The seconds field of `timersub(&a, &b)`. */
  function SubSeconds(a: Time, b: Time): int {
    if a.usec - b.usec < 0 then a.sec - b.sec - 1 else a.sec - b.sec
  }

  datatype EntryState = Free | Incomplete | Resolved | Static

  datatype Entry = Entry(state: EntryState, pa: u32, ha: Mac, stamp: Time)

  const CLEARED := Entry(Free, 0, MAC_ZERO, Timeval(0, 0))

  predicate Live(e: Entry, pa: u32) {
    e.state != Free && e.pa == pa
  }

  // ---------------------------------------------------------------- cache functions

  /** `arp_cache_select` from slot `k`; `|c|` stands for NULL. */
  function SelectFrom(c: seq<Entry>, pa: u32, k: nat): (i: nat)
    requires k <= |c|
    ensures k <= i <= |c| && (i < |c| ==> Live(c[i], pa))
    ensures forall j :: k <= j < i ==> !Live(c[j], pa)
    decreases |c| - k
  {
    if k == |c| || Live(c[k], pa) then k else SelectFrom(c, pa, k + 1)
  }

  function Select(c: seq<Entry>, pa: u32): (i: nat)
    ensures i <= |c| && (i < |c| ==> Live(c[i], pa))
    ensures forall j :: 0 <= j < i ==> !Live(c[j], pa)
  {
    SelectFrom(c, pa, 0)
  }

  /** `arp_cache_alloc` from slot `k`, with the oldest entry seen so far (`|c|` for none). */
  function AllocFrom(c: seq<Entry>, k: nat, oldest: nat): (i: nat)
    requires k <= |c|
    ensures k < |c| || oldest < |c| ==> i < |c|
    decreases |c| - k
  {
    if k == |c| then oldest
    else if c[k].state == Free then k
    else AllocFrom(c, k + 1, if oldest >= |c| || Later(c[oldest].stamp, c[k].stamp) then k else oldest)
  }

  function Alloc(c: seq<Entry>): (i: nat)
    ensures c != [] ==> i < |c|
  {
    AllocFrom(c, 0, |c|)
  }

  datatype Answer = Pending(created: bool) | Found(ha: Mac)

  /** `arp_cache_update`. */
  function Update(c: seq<Entry>, now: Time, pa: u32, ha: Mac): (r: seq<Entry>)
    ensures |r| == |c|
  {
    var i := Select(c, pa);
    if i == |c| then c else c[i := Entry(Resolved, c[i].pa, ha, now)]
  }

  /** `arp_cache_insert`. */
  function Insert(c: seq<Entry>, now: Time, pa: u32, ha: Mac): (r: seq<Entry>)
    requires c != []
    ensures |r| == |c|
  {
    c[Alloc(c) := Entry(Resolved, pa, ha, now)]
  }

  /** The locked region of `arp_resolve`. */
  function Resolve(c: seq<Entry>, now: Time, pa: u32): (r: (seq<Entry>, Answer))
    requires c != []
    ensures |r.0| == |c|
  {
    var i := Select(c, pa);
    if i == |c| then
      (c[Alloc(c) := Entry(Incomplete, pa, c[Alloc(c)].ha, now)], Pending(true))
    else if c[i].state == Incomplete then (c, Pending(false))
    else (c, Found(c[i].ha))
  }

  predicate Expired(e: Entry, now: Time) {
    e.state != Free && e.state != Static && SubSeconds(now, e.stamp) > CACHE_TIMEOUT
  }

  /** `arp_timer`. */
  function Sweep(c: seq<Entry>, now: Time): (r: seq<Entry>)
    ensures |r| == |c|
  {
    seq(|c|, i requires 0 <= i < |c| => if Expired(c[i], now) then CLEARED else c[i])
  }

  // ---------------------------------------------------------------- allocation and ageing

  predicate Full(c: seq<Entry>) {
    forall i :: 0 <= i < |c| ==> c[i].state != Free
  }

  /** `oldest` has a minimal timestamp among the first `k` entries. */
  ghost predicate Oldest(c: seq<Entry>, k: nat, oldest: nat) {
    oldest < |c| && oldest < k <= |c| && forall j :: 0 <= j < k ==> Micros(c[oldest].stamp) <= Micros(c[j].stamp)
  }

  lemma LaterIsMicros(a: Time, b: Time)
    ensures Later(a, b) <==> Micros(a) > Micros(b)
  {
  }

  lemma {:induction false} AllocScan(c: seq<Entry>, k: nat, oldest: nat)
    requires k <= |c| && (forall j :: 0 <= j < k ==> c[j].state != Free)
    requires if k == 0 then oldest == |c| else Oldest(c, k, oldest)
    ensures var i := AllocFrom(c, k, oldest);
            && (c != [] ==> i < |c|)
            && (!Full(c) ==> c[i].state == Free && forall j :: 0 <= j < i ==> c[j].state != Free)
            && (Full(c) && c != [] ==> Oldest(c, |c|, i))
    decreases |c| - k
  {
    if k < |c| && c[k].state != Free {
      if k > 0 { LaterIsMicros(c[oldest].stamp, c[k].stamp); }
      AllocScan(c, k + 1, if oldest >= |c| || Later(c[oldest].stamp, c[k].stamp) then k else oldest);
    }
  }

  /** Allocation takes the first free slot; only when there is none does it evict, and then
      an entry with a minimal timestamp. */
  lemma AllocChoice(c: seq<Entry>)
    requires c != []
    ensures Alloc(c) < |c|
    ensures !Full(c) ==> c[Alloc(c)].state == Free && forall j :: 0 <= j < Alloc(c) ==> c[j].state != Free
    ensures Full(c) ==> forall j :: 0 <= j < |c| ==> Micros(c[Alloc(c)].stamp) <= Micros(c[j].stamp)
  {
    AllocScan(c, 0, |c|);
  }

  /** A sweep keeps exactly the free and static entries and those younger than 31 seconds. */
  lemma SweepKeepsYoung(c: seq<Entry>, now: Time, i: nat)
    requires i < |c|
    ensures Sweep(c, now)[i] == c[i] || Sweep(c, now)[i] == CLEARED
    ensures c[i].state == Incomplete || c[i].state == Resolved ==>
              (Sweep(c, now)[i] == c[i] <==> Micros(now) - Micros(c[i].stamp) < 31_000_000)
    ensures c[i].state == Free || c[i].state == Static ==> Sweep(c, now)[i] == c[i]
  {
  }

  // ---------------------------------------------------------------- steps and runs

  /** An ARP message that passed the header checks. */
  datatype Message = Message(sha: Mac, spa: u32, tpa: u32, request: bool)

  datatype Waiting = Waiting(msg: Message, merged: bool, mine: bool)

  datatype State = State(cache: seq<Entry>, halfway: Option<Waiting>)

  /** `mine` says whether the receiving device has an IP interface with the target address. */
  datatype Op =
    | FirstHalf(now: Time, msg: Message, mine: bool)
    | SecondHalf(now: Time)
    | Ask(now: Time, pa: u32)
    | Tick(now: Time)

  function Init(): State {
    State(seq(CACHE_SIZE, _ => CLEARED), None)
  }

  /** One locked region. Operations the handler thread cannot make here change nothing. */
  function Next(s: State, op: Op): (r: State)
    requires |s.cache| == CACHE_SIZE
    ensures |r.cache| == CACHE_SIZE
  {
    match op
    case FirstHalf(now, m, mine) =>
      if s.halfway.Some? then s
      else
        State(Update(s.cache, now, m.spa, m.sha), Some(Waiting(m, Select(s.cache, m.spa) < |s.cache|, mine)))
    case SecondHalf(now) =>
      if s.halfway.None? then s
      else
        var w := s.halfway.value;
        if w.mine && !w.merged then State(Insert(s.cache, now, w.msg.spa, w.msg.sha), None)
        else s.(halfway := None)
    case Ask(now, pa) => s.(cache := Resolve(s.cache, now, pa).0)
    case Tick(now) => if s.halfway.Some? then s else s.(cache := Sweep(s.cache, now))
  }

  /** The state after a history of operations. */
  function Run(ops: seq<Op>): (s: State)
    ensures |s.cache| == CACHE_SIZE
    decreases |ops|
  {
    if ops == [] then Init() else Next(Run(ops[..|ops| - 1]), ops[|ops| - 1])
  }

  /** The sender hardware address of the most recent message from `pa`. */
  function LastHeard(ops: seq<Op>, pa: u32): Option<Mac>
    decreases |ops|
  {
    if ops == [] then None
    else
      var op := ops[|ops| - 1];
      if op.FirstHalf? && Run(ops[..|ops| - 1]).halfway.None? && op.msg.spa == pa then Some(op.msg.sha)
      else LastHeard(ops[..|ops| - 1], pa)
  }
}
