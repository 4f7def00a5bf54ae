/** The protocol queues and the loop that drains them (src/lib/net.c).

    Each protocol has a type and an input queue; its handler, a function pointer in the C
    struct, is here a function value. Handling an entry changes the host and may push
    entries back into the queues, as sending through the loopback device does. */
module Draining {
  import opened Options
  import opened Words
  import opened Queues

  datatype Protocol<E> = Protocol(kind: u16, queue: seq<E>)

  /** What a handler does at the `n`-th dispatch: the host afterwards, and the entries it
      pushed with `network_input_handler`, in order. */
  type Handler<!H, !E> = (H, nat, u16, E) -> (H, seq<(u16, E)>)

  type Weigh<!E> = (u16, E) -> nat

  function TotalWeight<E>(weigh: Weigh<E>, kind: u16, q: seq<E>): nat {
    if q == [] then 0 else weigh(kind, q[0]) + TotalWeight(weigh, kind, q[1..])
  }

  lemma {:induction false} TotalWeightAppend<E>(weigh: Weigh<E>, kind: u16, a: seq<E>, b: seq<E>)
    ensures TotalWeight(weigh, kind, a + b) == TotalWeight(weigh, kind, a) + TotalWeight(weigh, kind, b)
  {
    if a == [] {
      assert a + b == b;
    } else {
      assert (a + b)[1..] == a[1..] + b;
      TotalWeightAppend(weigh, kind, a[1..], b);
    }
  }

  /** The entries of a list of pushes. */
  function Entries<E>(pushes: seq<(u16, E)>): (s: seq<E>)
    ensures |s| == |pushes|
  {
    seq(|pushes|, i requires 0 <= i < |pushes| => pushes[i].1)
  }

  lemma EntriesCons<E>(q: seq<E>, pushes: seq<(u16, E)>)
    requires pushes != []
    ensures q + [pushes[0].1] + Entries(pushes[1..]) == q + Entries(pushes)
  {
  }

  predicate AllOfKind<E>(pushes: seq<(u16, E)>, kind: u16) {
    forall i :: 0 <= i < |pushes| ==> pushes[i].0 == kind
  }

  /** A handler pushes only into its own protocol's queue, and what it pushes weighs less
      than what it handled. */
  ghost predicate LoopsDown<H(!new), E(!new)>(handler: Handler<H, E>, weigh: Weigh<E>) {
    forall h: H, n: nat, kind: u16, e: E ::
      && AllOfKind(handler(h, n, kind, e).1, kind)
      && TotalWeight(weigh, kind, Entries(handler(h, n, kind, e).1)) < weigh(kind, e)
  }

  // ---------------------------------------------------------------- one queue

  /** The outcome of draining a queue: the host, the number of the next dispatch, what was
      dispatched, in order, and what the handlers pushed into the queue meanwhile. */
  datatype Drained<H, E> = Drained(host: H, next: nat, dispatched: seq<E>, pushed: seq<E>)

  /** One turn of the inner loop makes the queue lighter. */
  lemma TurnShrinks<H(!new), E(!new)>(handler: Handler<H, E>, weigh: Weigh<E>, h: H, n: nat, kind: u16, q: seq<E>)
    requires LoopsDown(handler, weigh) && q != []
    ensures TotalWeight(weigh, kind, q[1..] + Entries(handler(h, n, kind, q[0]).1)) < TotalWeight(weigh, kind, q)
  {
    TotalWeightAppend(weigh, kind, q[1..], Entries(handler(h, n, kind, q[0]).1));
  }

  /** The inner loop of `network_protocol_handler`. First in, first out, each once: what is
      dispatched is the queue followed by what was pushed while draining it, and there are
      at most as many dispatches as the queue weighed. */
  ghost function DrainQueue<H(!new), E(!new)>(handler: Handler<H, E>, weigh: Weigh<E>, h: H, n: nat,
                                              kind: u16, q: seq<E>): (r: Drained<H, E>)
    requires LoopsDown(handler, weigh)
    ensures r.dispatched == q + r.pushed
    ensures |r.dispatched| <= TotalWeight(weigh, kind, q) && r.next == n + |r.dispatched|
    decreases TotalWeight(weigh, kind, q)
  {
    if q == [] then Drained(h, n, [], [])
    else
      var (h', pushes) := handler(h, n, kind, q[0]);
      TurnShrinks(handler, weigh, h, n, kind, q);
      var rest := DrainQueue(handler, weigh, h', n + 1, kind, q[1..] + Entries(pushes));
      Requeued(q, Entries(pushes), rest.pushed);
      After([q[0]], Entries(pushes), rest)
  }

  lemma Requeued<E>(q: seq<E>, pushed: seq<E>, later: seq<E>)
    requires q != []
    ensures [q[0]] + ((q[1..] + pushed) + later) == q + (pushed + later)
  {
  }

  /** An outcome with earlier dispatches and pushes put in front. */
  function After<H, E>(dispatched: seq<E>, pushed: seq<E>, r: Drained<H, E>): Drained<H, E> {
    Drained(r.host, r.next, dispatched + r.dispatched, pushed + r.pushed)
  }

  /** One turn moves the head of the queue, and what its handler pushes, into the outcome. */
  lemma TurnAfter<H(!new), E(!new)>(handler: Handler<H, E>, weigh: Weigh<E>, h: H, n: nat, kind: u16, q: seq<E>,
                                    dispatched: seq<E>, pushed: seq<E>)
    requires LoopsDown(handler, weigh) && q != []
    ensures var (h', pushes) := handler(h, n, kind, q[0]);
            After(dispatched, pushed, DrainQueue(handler, weigh, h, n, kind, q))
            == After(dispatched + [q[0]], pushed + Entries(pushes),
                     DrainQueue(handler, weigh, h', n + 1, kind, q[1..] + Entries(pushes)))
  {
  }

  /** The dispatches of a drained queue are exactly the turns of the loop: each is handled
      by the host the one before left, and pushes what its handler pushes. */
  ghost predicate Turns<H, E>(handler: Handler<H, E>, h: H, n: nat, kind: u16,
                              dispatched: seq<E>, pushed: seq<E>, end: H)
    decreases |dispatched|
  {
    if dispatched == [] then pushed == [] && end == h
    else
      var (h', pushes) := handler(h, n, kind, dispatched[0]);
      Entries(pushes) <= pushed
      && Turns(handler, h', n + 1, kind, dispatched[1..], pushed[|pushes|..], end)
  }

  lemma {:induction false} DrainedByTurns<H(!new), E(!new)>(handler: Handler<H, E>, weigh: Weigh<E>,
                                                            h: H, n: nat, kind: u16, q: seq<E>)
    requires LoopsDown(handler, weigh)
    ensures var r := DrainQueue(handler, weigh, h, n, kind, q);
            Turns(handler, h, n, kind, r.dispatched, r.pushed, r.host)
    decreases TotalWeight(weigh, kind, q)
  {
    if q == [] {
    } else {
      var (h', pushes) := handler(h, n, kind, q[0]);
      TurnShrinks(handler, weigh, h, n, kind, q);
      DrainedByTurns(handler, weigh, h', n + 1, kind, q[1..] + Entries(pushes));
      var rest := DrainQueue(handler, weigh, h', n + 1, kind, q[1..] + Entries(pushes));
      assert ([q[0]] + rest.dispatched)[1..] == rest.dispatched;
      assert (Entries(pushes) + rest.pushed)[|pushes|..] == rest.pushed;
    }
  }

  /** Whatever a handler pushes satisfies `ok`. */
  ghost predicate PushesOnly<H(!new), E(!new)>(handler: Handler<H, E>, ok: (u16, E) -> bool) {
    forall h: H, n: nat, kind: u16, e: E, x: E :: x in Entries(handler(h, n, kind, e).1) ==> ok(kind, x)
  }

  lemma {:induction false} PushedIsOk<H(!new), E(!new)>(handler: Handler<H, E>, weigh: Weigh<E>, h: H, n: nat,
                                                        kind: u16, q: seq<E>, ok: (u16, E) -> bool)
    requires LoopsDown(handler, weigh) && PushesOnly(handler, ok)
    ensures forall x :: x in DrainQueue(handler, weigh, h, n, kind, q).pushed ==> ok(kind, x)
    decreases TotalWeight(weigh, kind, q)
  {
    if q == [] {
    } else {
      var (h', pushes) := handler(h, n, kind, q[0]);
      TurnShrinks(handler, weigh, h, n, kind, q);
      PushedIsOk(handler, weigh, h', n + 1, kind, q[1..] + Entries(pushes), ok);
    }
  }

  /** A turn that pushes nothing just moves on. */
  lemma QuietTurn<H(!new), E(!new)>(handler: Handler<H, E>, weigh: Weigh<E>, h: H, n: nat, kind: u16, q: seq<E>, h': H)
    requires LoopsDown(handler, weigh) && q != [] && handler(h, n, kind, q[0]) == (h', [])
    ensures DrainQueue(handler, weigh, h, n, kind, q)
            == After([q[0]], [], DrainQueue(handler, weigh, h', n + 1, kind, q[1..]))
  {
    assert q[1..] + Entries<E>([]) == q[1..] && Entries<E>([]) == [];
  }

  /** The host after one thing after the other happened to it. */
  ghost function Fold<H, F>(h: H, fs: seq<F>, after: (H, F) -> H): H
    decreases |fs|
  {
    if fs == [] then h else Fold(after(h, fs[0]), fs[1..], after)
  }

  /** Handling the entry of an `ok` item does just `after`, and pushes nothing. */
  ghost predicate Quiet<H(!new), E(!new), F(!new)>(handler: Handler<H, E>, kind: u16, entry: F -> E,
                                                   after: (H, F) -> H, ok: (H, F) -> bool) {
    forall h: H, n: nat, f: F :: ok(h, f) ==> handler(h, n, kind, entry(f)) == (after(h, f), [])
  }

  ghost predicate StaysOk<H(!new), F(!new)>(after: (H, F) -> H, ok: (H, F) -> bool) {
    forall h: H, f: F, g: F :: ok(h, f) && ok(h, g) ==> ok(after(h, f), g)
  }

  /** A queue of such entries is drained by doing all of them in order. */
  lemma {:induction false} QuietDrain<H(!new), E(!new), F(!new)>(handler: Handler<H, E>, weigh: Weigh<E>, h: H, n: nat,
                                                                 kind: u16, q: seq<E>, fs: seq<F>, entry: F -> E,
                                                                 after: (H, F) -> H, ok: (H, F) -> bool)
    requires LoopsDown(handler, weigh) && Quiet(handler, kind, entry, after, ok) && StaysOk(after, ok)
    requires |q| == |fs| && forall j :: 0 <= j < |fs| ==> ok(h, fs[j]) && q[j] == entry(fs[j])
    ensures DrainQueue(handler, weigh, h, n, kind, q) == Drained(Fold(h, fs, after), n + |q|, q, [])
    decreases |fs|
  {
    if fs == [] {
    } else {
      var h' := after(h, fs[0]);
      assert ok(h, fs[0]) && handler(h, n, kind, entry(fs[0])) == (h', []);
      QuietTurn(handler, weigh, h, n, kind, q, h');
      QuietDrain(handler, weigh, h', n + 1, kind, q[1..], fs[1..], entry, after, ok);
      assert [q[0]] + q[1..] == q;
    }
  }

  /** Handling an entry keeps `good` hosts good. */
  ghost predicate KeepsGood<H(!new), E(!new)>(handler: Handler<H, E>, good: H -> bool) {
    forall h: H, n: nat, kind: u16, e: E :: good(h) ==> good(handler(h, n, kind, e).0)
  }

  /** A good host handling `e` pushes something that satisfies `ok`. */
  ghost predicate Yields<H(!new), E(!new)>(handler: Handler<H, E>, kind: u16, e: E, good: H -> bool, ok: E -> bool) {
    forall h: H, n: nat :: good(h) ==> YieldsAt(handler, h, n, kind, e, ok)
  }

  ghost predicate YieldsAt<H(!new), E(!new)>(handler: Handler<H, E>, h: H, n: nat, kind: u16, e: E, ok: E -> bool) {
    exists x :: x in Entries(handler(h, n, kind, e).1) && ok(x)
  }

  /** What a queued entry makes its handler push is pushed, and dispatched, in the drain. */
  lemma {:induction false} YieldIsDrained<H(!new), E(!new)>(handler: Handler<H, E>, weigh: Weigh<E>, h: H, n: nat,
                                                            kind: u16, q: seq<E>, e: E, good: H -> bool, ok: E -> bool)
      returns (x: E)
    requires LoopsDown(handler, weigh) && good(h) && e in q
    requires KeepsGood(handler, good) && Yields(handler, kind, e, good, ok)
    ensures var r := DrainQueue(handler, weigh, h, n, kind, q); ok(x) && x in r.pushed && x in r.dispatched
    decreases TotalWeight(weigh, kind, q)
  {
    var (h', pushes) := handler(h, n, kind, q[0]);
    if q[0] == e {
      assert YieldsAt(handler, h, n, kind, e, ok);
      x :| x in Entries(handler(h, n, kind, e).1) && ok(x);
    } else {
      TurnShrinks(handler, weigh, h, n, kind, q);
      x := YieldIsDrained(handler, weigh, h', n + 1, kind, q[1..] + Entries(pushes), e, good, ok);
    }
  }

  /** The outcome with one more dispatch. */
  function Advanced<H, E>(d: Drained<H, E>, e: E, h: H, pushed: seq<E>): Drained<H, E> {
    Drained(h, d.next + 1, d.dispatched + [e], d.pushed + pushed)
  }

  lemma StepCompleted<H(!new), E(!new)>(handler: Handler<H, E>, weigh: Weigh<E>, kind: u16, d: Drained<H, E>, q: seq<E>)
    requires LoopsDown(handler, weigh) && q != []
    ensures var (h, pushes) := handler(d.host, d.next, kind, q[0]);
            var rest := q[1..] + Entries(pushes);
            && Completed(handler, weigh, kind, Advanced(d, q[0], h, Entries(pushes)), rest)
               == Completed(handler, weigh, kind, d, q)
            && TotalWeight(weigh, kind, rest) < TotalWeight(weigh, kind, q)
  {
    TurnShrinks(handler, weigh, d.host, d.next, kind, q);
    TurnAfter(handler, weigh, d.host, d.next, kind, q, d.dispatched, d.pushed);
  }

  /** What is done so far, continued with the drain of the rest. */
  ghost function Completed<H(!new), E(!new)>(handler: Handler<H, E>, weigh: Weigh<E>, kind: u16,
                                             d: Drained<H, E>, q: seq<E>): Drained<H, E>
    requires LoopsDown(handler, weigh)
  {
    After(d.dispatched, d.pushed, DrainQueue(handler, weigh, d.host, d.next, kind, q))
  }

  /** After `d`, with the queue `q` of weight `w` left, the outcome will be `all`. */
  ghost predicate Ahead<H(!new), E(!new)>(handler: Handler<H, E>, weigh: Weigh<E>, kind: u16,
                                          d: Drained<H, E>, q: seq<E>, all: Drained<H, E>, w: nat) {
    LoopsDown(handler, weigh) && Completed(handler, weigh, kind, d, q) == all && TotalWeight(weigh, kind, q) == w
  }

  lemma CompletedEmpty<H(!new), E(!new)>(handler: Handler<H, E>, weigh: Weigh<E>, kind: u16, d: Drained<H, E>)
    requires LoopsDown(handler, weigh)
    ensures Completed(handler, weigh, kind, d, []) == d
  {
  }

  lemma CompletedStart<H(!new), E(!new)>(handler: Handler<H, E>, weigh: Weigh<E>, kind: u16, h: H, n: nat, q: seq<E>)
    requires LoopsDown(handler, weigh)
    ensures Completed(handler, weigh, kind, Drained(h, n, [], []), q) == DrainQueue(handler, weigh, h, n, kind, q)
  {
  }

  // ---------------------------------------------------------------- all queues

  /** The log of `network_protocol_handler`: the queues of the registered protocols, drained
      one after the other, each by the host and at the time the one before left. */
  ghost predicate Logged<H(!new), E(!new)>(handler: Handler<H, E>, weigh: Weigh<E>, h: H, n: nat,
                                           protos: seq<Protocol<E>>, log: seq<Drained<H, E>>, end: H)
    requires LoopsDown(handler, weigh)
  {
    && |log| == |protos|
    && end == (if log == [] then h else log[|log| - 1].host)
    && forall k :: 0 <= k < |protos| ==> LoggedAt(handler, weigh, h, n, protos, log, k)
  }

  ghost predicate LoggedAt<H(!new), E(!new)>(handler: Handler<H, E>, weigh: Weigh<E>, h: H, n: nat,
                                             protos: seq<Protocol<E>>, log: seq<Drained<H, E>>, k: nat)
    requires LoopsDown(handler, weigh) && k < |protos| == |log|
  {
    var (host, next) := if k == 0 then (h, n) else (log[k - 1].host, log[k - 1].next);
    log[k] == DrainQueue(handler, weigh, host, next, protos[k].kind, protos[k].queue)
  }

  lemma LoggedMore<H(!new), E(!new)>(handler: Handler<H, E>, weigh: Weigh<E>, h: H, n: nat, protos: seq<Protocol<E>>,
                                     log: seq<Drained<H, E>>, end: H, p: Protocol<E>, d: Drained<H, E>)
    requires LoopsDown(handler, weigh) && Logged(handler, weigh, h, n, protos, log, end)
    requires d == DrainQueue(handler, weigh, end, if log == [] then n else log[|log| - 1].next, p.kind, p.queue)
    ensures Logged(handler, weigh, h, n, protos + [p], log + [d], d.host)
  {
    var protos', log' := protos + [p], log + [d];
    forall k | 0 <= k < |protos'| ensures LoggedAt(handler, weigh, h, n, protos', log', k) {
      if k < |protos| {
        assert LoggedAt(handler, weigh, h, n, protos, log, k);
        assert log'[k] == log[k] && protos'[k] == protos[k] && (k > 0 ==> log'[k - 1] == log[k - 1]);
      }
    }
  }

  /** No two registered protocols have the same type. */
  predicate DistinctKinds<E>(protos: seq<Protocol<E>>) {
    forall i, j :: 0 <= i < j < |protos| ==> protos[i].kind != protos[j].kind
  }

  predicate SameKinds<E>(a: seq<Protocol<E>>, b: seq<Protocol<E>>) {
    |a| == |b| && forall i :: 0 <= i < |a| ==> a[i].kind == b[i].kind
  }

  lemma UpdatedTwice<T>(s: seq<T>, k: nat, a: T, b: T)
    requires k < |s|
    ensures s[k := a][k := b] == s[k := b]
  {
  }

  ghost predicate Distinct<T>(s: seq<T>) {
    forall i, j :: 0 <= i < j < |s| ==> s[i] != s[j]
  }

  /** The protocols are these types with what these queues hold. */
  ghost predicate Tied<E>(kinds: seq<u16>, queues: seq<QueueHead<E>>, protos: seq<Protocol<E>>)
    reads queues
  {
    && |kinds| == |queues| == |protos|
    && forall k :: 0 <= k < |protos| ==> protos[k] == Protocol(kinds[k], queues[k].contents)
  }

  lemma TiedCons<E>(kinds: seq<u16>, queues: seq<QueueHead<E>>, protos: seq<Protocol<E>>, kind: u16, q: QueueHead<E>)
    requires Tied(kinds, queues, protos) && Distinct(queues) && DistinctKinds(protos) && q !in queues
    requires forall k :: 0 <= k < |protos| ==> protos[k].kind != kind
    ensures var protos' := [Protocol(kind, q.contents)] + protos;
            Tied([kind] + kinds, [q] + queues, protos') && Distinct([q] + queues) && DistinctKinds(protos')
  {
  }

  class Network<H(!new), E(!new)> {
    const handler: Handler<H, E>
    ghost const weigh: Weigh<E>
    var host: H
    /** The protocol list, most recently registered first: types, and linked input queues. */
    var kinds: seq<u16>
    var queues: seq<QueueHead<E>>
    const list: QueueSet<E>
    /** The same list with what the queues hold. */
    ghost var protocols: seq<Protocol<E>>

    ghost predicate Valid()
      reads this, list, list.repr
    {
      && DistinctKinds(protocols) && list.Valid() && this !in list.repr
      && (forall q :: q in queues ==> q in list.all)
      && Distinct(queues) && Tied(kinds, queues, protocols)
    }

    constructor (handler: Handler<H, E>, ghost weigh: Weigh<E>, host: H)
      ensures Valid() && protocols == [] && this.host == host && this.handler == handler && this.weigh == weigh
      ensures fresh(list) && fresh(list.repr)
    {
      this.handler := handler;
      this.weigh := weigh;
      this.host := host;
      list := new QueueSet<E>();
      kinds, queues, protocols := [], [], [];
    }

    /** `network_protocol_register`. */
    method Register(kind: u16) returns (ok: bool)
      requires Valid()
      modifies this`kinds, this`queues, this`protocols, list
      ensures Valid() && fresh(list.repr - old(list.repr))
      ensures ok <==> forall k :: 0 <= k < |old(protocols)| ==> old(protocols)[k].kind != kind
      ensures protocols == if ok then [Protocol(kind, [])] + old(protocols) else old(protocols)
    {
      for k := 0 to |kinds|
        invariant forall j :: 0 <= j < k ==> protocols[j].kind != kind
      {
        if kinds[k] == kind {
          return false;
        }
      }
      AddFront(kind);
      ok := true;
    }

    method AddFront(kind: u16)
      requires Valid() && forall k :: 0 <= k < |protocols| ==> protocols[k].kind != kind
      modifies this`kinds, this`queues, this`protocols, list
      ensures Valid() && fresh(list.repr - old(list.repr)) && protocols == [Protocol(kind, [])] + old(protocols)
    {
      var q := list.Add();
      assert Tied(kinds, queues, protocols);
      TiedCons(kinds, queues, protocols, kind, q);
      kinds, queues, protocols := [kind] + kinds, [q] + queues, [Protocol(kind, [])] + protocols;
    }

    /** `network_input_handler`: the entry goes to the queue of its type, if there is one. */
    method InputHandler(kind: u16, e: E)
      requires Valid()
      modifies this`protocols, list, list.repr
      ensures Valid() && fresh(list.repr - old(list.repr)) && SameKinds(protocols, old(protocols))
      ensures forall k :: 0 <= k < |protocols| ==>
                var p := old(protocols)[k];
                protocols[k] == if p.kind == kind then Protocol(kind, p.queue + [e]) else p
    {
      for k := 0 to |kinds|
        invariant forall j :: 0 <= j < k ==> protocols[j].kind != kind
      {
        if kinds[k] == kind {
          Enqueue(k, e);
          return;
        }
      }
    }

    method Enqueue(k: nat, e: E)
      requires Valid() && k < |protocols|
      modifies this`protocols, list, list.repr
      ensures Valid() && fresh(list.repr - old(list.repr))
      ensures protocols == old(protocols)[k := Protocol(old(protocols)[k].kind, old(protocols)[k].queue + [e])]
    {
      list.PushTo(queues[k], e);
      protocols := protocols[k := Protocol(protocols[k].kind, protocols[k].queue + [e])];
    }

    /** An entry of its own type comes back to protocol `k`. */
    method PushBack(k: nat, e: E)
      requires Valid() && k < |protocols|
      modifies this`protocols, list, list.repr
      ensures Valid() && fresh(list.repr - old(list.repr))
      ensures protocols == old(protocols)[k := Protocol(old(protocols)[k].kind, old(protocols)[k].queue + [e])]
    {
      InputHandler(kinds[k], e);
    }

    /** Pushes what a handler of protocol `k` sent back. */
    method TakeBack(pushes: seq<(u16, E)>, k: nat)
      requires Valid() && k < |protocols| && AllOfKind(pushes, protocols[k].kind)
      modifies this`protocols, list, list.repr
      ensures Valid() && fresh(list.repr - old(list.repr))
      ensures var p := old(protocols)[k];
              protocols == old(protocols)[k := Protocol(p.kind, p.queue + Entries(pushes))]
    {
      if pushes != [] {
        ghost var kind, q := protocols[k].kind, protocols[k].queue;
        PushBack(k, pushes[0].1);
        TakeBack(pushes[1..], k);
        EntriesCons(q, pushes);
        UpdatedTwice(old(protocols), k, Protocol(kind, q + [pushes[0].1]), Protocol(kind, q + Entries(pushes)));
      } else {
        assert protocols[k].queue + Entries(pushes) == protocols[k].queue;
      }
    }

    /** Pops an entry of protocol `k`, dispatches it and takes back what was pushed. */
    method Turn(m: nat, k: nat) returns (e: Option<E>, pushed: seq<E>)
      requires Valid() && k < |protocols|
      requires protocols[k].queue != [] ==>
                 AllOfKind(handler(host, m, protocols[k].kind, protocols[k].queue[0]).1, protocols[k].kind)
      modifies this`host, this`protocols, list, list.repr
      ensures Valid() && fresh(list.repr - old(list.repr))
      ensures var kind, q := old(protocols)[k].kind, old(protocols)[k].queue;
              if q == [] then e == None && pushed == [] && host == old(host) && protocols == old(protocols)
              else
                var (h, pushes) := handler(old(host), m, kind, q[0]);
                && e == Some(q[0]) && host == h && pushed == Entries(pushes)
                && protocols == old(protocols)[k := Protocol(kind, q[1..] + pushed)]
    {
      pushed := [];
      e := Dequeue(k);
      if e.Some? {
        var (h, pushes) := handler(host, m, kinds[k], e.value);
        host := h;
        TakeBack(pushes, k);
        pushed := Entries(pushes);
      }
    }

    method Dequeue(k: nat) returns (e: Option<E>)
      requires Valid() && k < |protocols|
      modifies this`protocols, list.repr
      ensures Valid()
      ensures var kind, q := old(protocols)[k].kind, old(protocols)[k].queue;
              if q == [] then e == None && protocols == old(protocols)
              else e == Some(q[0]) && protocols == old(protocols)[k := Protocol(kind, q[1..])]
    {
      e := list.PopFrom(queues[k]);
      if e.Some? {
        protocols := protocols[k := Protocol(protocols[k].kind, protocols[k].queue[1..])];
      }
    }

    /** A turn leaves what is still to come, after what is done, the same. */
    method Step(k: nat, was: Drained<H, E>, ghost all: Drained<H, E>, ghost w: nat)
      returns (now: Drained<H, E>, more: bool, ghost q: seq<E>, ghost w': nat)
      requires Valid() && k < |protocols| && host == was.host
      requires Ahead(handler, weigh, protocols[k].kind, was, protocols[k].queue, all, w)
      modifies this`host, this`protocols, list, list.repr
      ensures Valid() && fresh(list.repr - old(list.repr)) && host == now.host
      ensures protocols == old(protocols)[k := Protocol(old(protocols)[k].kind, q)]
      ensures Ahead(handler, weigh, old(protocols)[k].kind, now, q, all, w') 
      ensures if more then w' < w else w' <= w && q == []
    {
      if protocols[k].queue != [] { StepCompleted(handler, weigh, protocols[k].kind, was, protocols[k].queue); }
      var e, pushed := Turn(was.next, k);
      q := protocols[k].queue;
      w' := TotalWeight(weigh, protocols[k].kind, q);
      more := e.Some?;
      now := if more then Advanced(was, e.value, host, pushed) else was;
    }

    /** The inner loop on protocol `k`. */
    method DrainOne(n: nat, k: nat) returns (d: Drained<H, E>)
      requires LoopsDown(handler, weigh) && Valid() && k < |protocols|
      modifies this`host, this`protocols, list, list.repr
      ensures Valid() && fresh(list.repr - old(list.repr)) && host == d.host
      ensures d == DrainQueue(handler, weigh, old(host), n, old(protocols)[k].kind, old(protocols)[k].queue)
      ensures protocols == old(protocols)[k := Protocol(old(protocols)[k].kind, [])]
    {
      d := Drained(host, n, [], []);
      ghost var kind, q := protocols[k].kind, protocols[k].queue;
      ghost var all, w := DrainQueue(handler, weigh, host, n, kind, q), TotalWeight(weigh, kind, q);
      CompletedStart(handler, weigh, kind, host, n, q);
      var more := true;
      assert protocols == protocols[k := Protocol(kind, q)];
      while more
        invariant Valid() && fresh(list.repr - old(list.repr)) && host == d.host
        invariant protocols == old(protocols)[k := Protocol(kind, q)] && (!more ==> q == [])
        invariant Ahead(handler, weigh, kind, d, q, all, w)
        decreases w, more
      {
        ghost var was := q;
        d, more, q, w := Step(k, d, all, w);
        UpdatedTwice(old(protocols), k, Protocol(kind, was), Protocol(kind, q));
      }
      CompletedEmpty(handler, weigh, kind, d);
    }

    /** The next protocol of the list is drained and logged. */
    method DrainNext(k: nat, log: seq<Drained<H, E>>, ghost start: H, ghost protos: seq<Protocol<E>>)
      returns (log': seq<Drained<H, E>>)
      requires LoopsDown(handler, weigh) && Valid() && k == |log| < |protocols| == |protos| && protocols[k] == protos[k]
      requires Logged(handler, weigh, start, 0, protos[..k], log, host)
      modifies this`host, this`protocols, list, list.repr
      ensures Valid() && fresh(list.repr - old(list.repr))
      ensures protocols == old(protocols)[k := Protocol(protos[k].kind, [])]
      ensures |log'| == k + 1 && Logged(handler, weigh, start, 0, protos[..k + 1], log', host)
    {
      var d := DrainOne(if k == 0 then 0 else log[k - 1].next, k);
      LoggedMore(handler, weigh, start, 0, protos[..k], log, old(host), protos[k], d);
      assert protos[..k + 1] == protos[..k] + [protos[k]];
      log' := log + [d];
    }

    /** `network_protocol_handler`: ends with every queue empty. */
    method ProtocolHandler() returns (log: seq<Drained<H, E>>)
      requires LoopsDown(handler, weigh) && Valid()
      modifies this`host, this`protocols, list, list.repr
      ensures Valid() && fresh(list.repr - old(list.repr)) && SameKinds(protocols, old(protocols))
      ensures forall k :: 0 <= k < |protocols| ==> protocols[k].queue == []
      ensures Logged(handler, weigh, old(host), 0, old(protocols), log, host)
    {
      log := [];
      assert protocols[..0] == [];
      for k := 0 to |kinds|
        invariant |kinds| == old(|kinds|) && Valid() && fresh(list.repr - old(list.repr))
        invariant SameKinds(protocols, old(protocols)) && |log| == k
        invariant forall j :: 0 <= j < k ==> protocols[j].queue == []
        invariant forall j :: k <= j < |protocols| ==> protocols[j] == old(protocols)[j]
        invariant Logged(handler, weigh, old(host), 0, old(protocols)[..k], log, host)
      {
        log := DrainNext(k, log, old(host), old(protocols));
      }
      assert old(protocols)[..|kinds|] == old(protocols);
    }
  }
}
