/** Interfaces and route lookup (src/lib/ip.c).

    Addresses are 32-bit words in network byte order; a little-endian host swaps them
    before it compares masks. */
module Routing {
  import opened Options
  import opened Words
  import opened Bits

  const ADDR_ANY: u32 := 0
  const ADDR_BROADCAST: u32 := 0xffff_ffff

  datatype Iface = Iface(unicast: u32, netmask: u32, broadcast: u32)

  /** `dev` is the index of the device whose IP interface the route uses. */
  datatype Route = Route(network: u32, netmask: u32, nexthop: u32, dev: nat)

  /** `ip_allocate_interface`, after its strings are parsed. */
  function MakeIface(unicast: u32, netmask: u32): Iface {
    Iface(unicast, netmask, Or32(And32(unicast, netmask), Not32(netmask)))
  }

  /** The route `ip_register_interface` adds for an interface. */
  function SubnetRoute(i: Iface, dev: nat): Route {
    Route(And32(i.unicast, i.netmask), i.netmask, ADDR_ANY, dev)
  }

  /** The route `ip_set_default_gateway` adds. */
  function DefaultRoute(gateway: u32, dev: nat): Route {
    Route(ADDR_ANY, ADDR_ANY, gateway, dev)
  }

  predicate Matches(r: Route, dst: u32) {
    And32(dst, r.netmask) == r.network
  }

  /** Which routes match a destination. */
  function Hits(routes: seq<Route>, dst: u32): (h: seq<bool>)
    ensures |h| == |routes|
  {
    seq(|routes|, i requires 0 <= i < |routes| => Matches(routes[i], dst))
  }

  /** The masks in host order, by which candidates are compared. */
  function Ranks(routes: seq<Route>): (r: seq<int>)
    ensures |r| == |routes|
  {
    seq(|routes|, i requires 0 <= i < |routes| => Byteswap32(routes[i].netmask))
  }

  /** The candidate loop of `ip_route_lookup` from position `k`; a candidate of `|hit|`
      stands for NULL. */
  function ScanFrom(hit: seq<bool>, rank: seq<int>, k: nat, candidate: nat): (i: nat)
    requires |hit| == |rank| && k <= |hit| && candidate <= |hit|
    ensures i <= |hit|
    decreases |hit| - k
  {
    if k == |hit| then candidate
    else if hit[k] && (candidate == |hit| || rank[candidate] < rank[k]) then ScanFrom(hit, rank, k + 1, k)
    else ScanFrom(hit, rank, k + 1, candidate)
  }

  /** `ip_route_lookup`: the index of the route found, or `|routes|` for NULL. */
  function Lookup(routes: seq<Route>, dst: u32): (i: nat)
    ensures i <= |routes|
  {
    ScanFrom(Hits(routes, dst), Ranks(routes), 0, |routes|)
  }

  // ---------------------------------------------------------------- the candidate

  /** Among the first `k` positions, `i` hits with the greatest rank, first among equals. */
  ghost predicate Best(hit: seq<bool>, rank: seq<int>, k: nat, i: nat)
    requires |hit| == |rank|
  {
    && i < k <= |hit| && hit[i]
    && (forall j :: 0 <= j < k && hit[j] ==> rank[j] <= rank[i])
    && (forall j :: 0 <= j < i && hit[j] ==> rank[j] < rank[i])
  }

  predicate NoHit(hit: seq<bool>, k: nat) {
    k <= |hit| && forall j :: 0 <= j < k ==> !hit[j]
  }

  lemma {:induction false} ScanFindsBest(hit: seq<bool>, rank: seq<int>, k: nat, candidate: nat)
    requires |hit| == |rank| && k <= |hit| && candidate <= |hit|
    requires if candidate == |hit| then NoHit(hit, k) else Best(hit, rank, k, candidate)
    ensures var i := ScanFrom(hit, rank, k, candidate);
            if i == |hit| then NoHit(hit, |hit|) else Best(hit, rank, |hit|, i)
    decreases |hit| - k
  {
    if k == |hit| {
    } else {
      if hit[k] && (candidate == |hit| || rank[candidate] < rank[k]) {
        ScanFindsBest(hit, rank, k + 1, k);
      } else {
        ScanFindsBest(hit, rank, k + 1, candidate);
      }
    }
  }

  // ---------------------------------------------------------------- prefixes

  /** The mask is that of a prefix of `p` bits, read in host order. */
  predicate IsPrefixMask(netmask: u32, p: nat) {
    p <= 32 && Byteswap32(netmask) == TWO32 - Pow2(32 - p)
  }

  ghost predicate Contiguous(r: Route) {
    exists p: nat :: IsPrefixMask(r.netmask, p)
  }

  ghost function PrefixLength(r: Route): (p: nat)
    requires Contiguous(r)
    ensures IsPrefixMask(r.netmask, p)
  {
    var p: nat :| IsPrefixMask(r.netmask, p);
    p
  }

  /** The top `p` of 32 bits agree and the others of `n` are zero (least significant first). */
  predicate SamePrefix(n: seq<bool>, d: seq<bool>, p: nat)
    requires |n| == |d| == 32
  {
    forall i :: 0 <= i < 32 ==> n[i] == (i >= 32 - p && d[i])
  }

  /** The first `p` bits of the destination are those of the network, whose other bits are
      zero (section 5.1 of RFC 4632); both read in host order. */
  predicate Covers(network: u32, p: nat, dst: u32) {
    SamePrefix(ToBits(32, Byteswap32(network)), ToBits(32, Byteswap32(dst)), p)
  }

  lemma PrefixMaskBits(m: u32, p: nat)
    requires p <= 32 && m == TWO32 - Pow2(32 - p)
    ensures ToBits(32, m) == Filled(32 - p, false) + Filled(p, true)
  {
    Pow2Values();
    PrefixMask(32, m, p);
  }

  lemma MaskedIsPrefix(v: u32, m: u32, n: u32, p: nat)
    requires p <= 32 && m == TWO32 - Pow2(32 - p)
    ensures And32(v, m) == n <==> SamePrefix(ToBits(32, n), ToBits(32, v), p)
  {
    AndBitsOf(v, m);
    PrefixMaskBits(m, p);
    if SamePrefix(ToBits(32, n), ToBits(32, v), p) {
      assert ToBits(32, And32(v, m)) == ToBits(32, n);
      SameBits(And32(v, m), n);
    }
  }

  /** With a prefix mask, the test in network order is prefix equality in host order. */
  lemma MatchIsCover(r: Route, p: nat, dst: u32)
    requires IsPrefixMask(r.netmask, p)
    ensures Matches(r, dst) <==> Covers(r.network, p, dst)
  {
    AndSwap32(dst, r.netmask);
    Byteswap32Injective(And32(dst, r.netmask), r.network);
    MaskedIsPrefix(Byteswap32(dst), Byteswap32(r.netmask), Byteswap32(r.network), p);
  }

  /** Comparing prefix masks in host order compares prefix lengths. */
  lemma MasksOrdered(m: u32, p: nat, m': u32, p': nat)
    requires IsPrefixMask(m, p) && IsPrefixMask(m', p')
    ensures Byteswap32(m) < Byteswap32(m') <==> p < p'
    ensures Byteswap32(m) <= Byteswap32(m') <==> p <= p'
  {
    if p < p' {
      Pow2Monotone(32 - p', 32 - p);
    } else {
      Pow2Monotone(32 - p, 32 - p');
    }
  }

  /** Longest-prefix match: for routes with prefix masks the lookup finds a covering route
      of maximal length, the most recently added among equals (routes are added at the
      front), and nothing only if no route covers the destination. */
  lemma LongestPrefix(routes: seq<Route>, dst: u32)
    requires forall j :: 0 <= j < |routes| ==> Contiguous(routes[j])
    ensures var i := Lookup(routes, dst);
            if i == |routes| then
              forall j :: 0 <= j < |routes| ==> !Covers(routes[j].network, PrefixLength(routes[j]), dst)
            else
              && Covers(routes[i].network, PrefixLength(routes[i]), dst)
              && forall j :: 0 <= j < |routes| && Covers(routes[j].network, PrefixLength(routes[j]), dst) ==>
                   if j < i then PrefixLength(routes[j]) < PrefixLength(routes[i])
                   else PrefixLength(routes[j]) <= PrefixLength(routes[i])
  {
    var i := Lookup(routes, dst);
    ScanFindsBest(Hits(routes, dst), Ranks(routes), 0, |routes|);
    forall j | 0 <= j < |routes|
      ensures Hits(routes, dst)[j] <==> Covers(routes[j].network, PrefixLength(routes[j]), dst)
    {
      MatchIsCover(routes[j], PrefixLength(routes[j]), dst);
    }
    if i < |routes| {
      forall j | 0 <= j < |routes|
        ensures Ranks(routes)[j] < Ranks(routes)[i] <==> PrefixLength(routes[j]) < PrefixLength(routes[i])
        ensures Ranks(routes)[j] <= Ranks(routes)[i] <==> PrefixLength(routes[j]) <= PrefixLength(routes[i])
      {
        MasksOrdered(routes[j].netmask, PrefixLength(routes[j]), routes[i].netmask, PrefixLength(routes[i]));
      }
    }
  }

  /** The broadcast address of an interface matches the route of its own subnet, whatever
      the mask, and so does its unicast address; outside the mask it is all ones. */
  lemma OwnSubnet(unicast: u32, netmask: u32, dev: nat)
    ensures var i := MakeIface(unicast, netmask);
            && i.unicast == unicast && Matches(SubnetRoute(i, dev), i.unicast)
            && Matches(SubnetRoute(i, dev), i.broadcast) && Or32(i.broadcast, netmask) == 0xffff_ffff
  {
    FilledHostPart(unicast, netmask);
    FilledToOnes(unicast, netmask);
  }

  /** The addresses agree in every bit of the mask. */
  ghost predicate SameUnderMask(a: u32, netmask: u32, b: u32) {
    forall i :: 0 <= i < 32 && ToBits(32, netmask)[i] ==> ToBits(32, a)[i] == ToBits(32, b)[i]
  }

  lemma MaskedEqual(a: u32, netmask: u32, b: u32)
    ensures And32(a, netmask) == And32(b, netmask) <==> SameUnderMask(a, netmask, b)
  {
    AndBitsOf(a, netmask);
    AndBitsOf(b, netmask);
    var x, y := AndBits(ToBits(32, a), ToBits(32, netmask)), AndBits(ToBits(32, b), ToBits(32, netmask));
    if SameUnderMask(a, netmask, b) {
      assert x == y;
      SameBits(And32(a, netmask), And32(b, netmask));
    } else {
      var i :| 0 <= i < 32 && ToBits(32, netmask)[i] && ToBits(32, a)[i] != ToBits(32, b)[i];
      assert x[i] != y[i];
    }
  }

  /** The route of an interface matches exactly the addresses of its subnet, and leads to them
      directly through its device. */
  lemma SubnetMatchesIff(unicast: u32, netmask: u32, dev: nat, dst: u32)
    ensures var r := SubnetRoute(MakeIface(unicast, netmask), dev);
            (Matches(r, dst) <==> SameUnderMask(dst, netmask, unicast)) && r.nexthop == 0 && r.dev == dev
  {
    MaskedEqual(dst, netmask, unicast);
  }

  /** Interfaces of one subnet have the same broadcast address. */
  lemma SubnetBroadcast(unicast: u32, unicast': u32, netmask: u32)
    requires SameUnderMask(unicast, netmask, unicast')
    ensures MakeIface(unicast, netmask).broadcast == MakeIface(unicast', netmask).broadcast
  {
    MaskedEqual(unicast, netmask, unicast');
  }

  /** With an interface and then a default gateway configured, the subnet is reached directly and
      everything else through the gateway. */
  lemma GatewayRoutes(unicast: u32, netmask: u32, dev: nat, gateway: u32, dst: u32)
    requires netmask != 0
    ensures var routes := [DefaultRoute(gateway, dev), SubnetRoute(MakeIface(unicast, netmask), dev)];
            var r := routes[if SameUnderMask(dst, netmask, unicast) then 1 else 0];
            && Lookup(routes, dst) == (if SameUnderMask(dst, netmask, unicast) then 1 else 0)
            && r.dev == dev && r.nexthop == if SameUnderMask(dst, netmask, unicast) then 0 else gateway
  {
    SubnetMatchesIff(unicast, netmask, dev, dst);
    DefaultMatches(gateway, dev, dst);
    DefaultLast(SubnetRoute(MakeIface(unicast, netmask), dev), DefaultRoute(gateway, dev), dst);
  }

  lemma DefaultLast(r: Route, default: Route, dst: u32)
    requires Matches(default, dst) && default.netmask == 0 && r.netmask != 0
    ensures Lookup([default, r], dst) == if Matches(r, dst) then 1 else 0
  {
    var hit := Hits([r], dst);
    ScanFindsBest(hit, Ranks([r]), 0, 1);
    assert hit[0] <==> Matches(r, dst);
    LookupAfterAdd([r], default, dst);
    Byteswap32Zero(r.netmask);
    Byteswap32Zero(0);
    assert [default] + [r] == [default, r];
  }

  lemma ZeroMaskMatches(unicast: u32, dst: u32)
    ensures Matches(SubnetRoute(MakeIface(unicast, 0), 0), dst)
  {
    AndZero(unicast);
    AndZero(dst);
  }

  lemma SingleRoute(r: Route, dst: u32)
    requires Matches(r, dst)
    ensures Lookup([r], dst) == 0
  {
    ScanFindsBest(Hits([r], dst), Ranks([r]), 0, 1);
    assert Hits([r], dst)[0];
  }

  /** Once a default gateway is set every destination has a route, and it is the default
      one only if no route with a nonzero mask matches. */
  lemma DefaultIsTotal(routes: seq<Route>, k: nat, gateway: u32, dev: nat, dst: u32)
    requires k < |routes| && routes[k] == DefaultRoute(gateway, dev)
    ensures var i := Lookup(routes, dst);
            i < |routes| && (routes[i].netmask == 0 ==>
              forall j :: 0 <= j < |routes| && Matches(routes[j], dst) ==> routes[j].netmask == 0)
  {
    ScanFindsBest(Hits(routes, dst), Ranks(routes), 0, |routes|);
    DefaultMatches(gateway, dev, dst);
    assert Hits(routes, dst)[k];
    NothingLonger(routes, dst, Lookup(routes, dst));
  }

  lemma NothingLonger(routes: seq<Route>, dst: u32, i: nat)
    requires Best(Hits(routes, dst), Ranks(routes), |routes|, i)
    ensures routes[i].netmask == 0 ==>
              forall j :: 0 <= j < |routes| && Matches(routes[j], dst) ==> routes[j].netmask == 0
  {
    forall j | 0 <= j < |routes| && Matches(routes[j], dst) && routes[i].netmask == 0 ensures routes[j].netmask == 0 {
      assert Hits(routes, dst)[j];
      ZeroRank(routes, i, j);
    }
  }

  lemma DefaultMatches(gateway: u32, dev: nat, dst: u32)
    ensures Matches(DefaultRoute(gateway, dev), dst)
  {
    AndZero(dst);
  }

  lemma ZeroRank(routes: seq<Route>, i: nat, j: nat)
    requires i < |routes| && j < |routes| && Ranks(routes)[j] <= Ranks(routes)[i] && routes[i].netmask == 0
    ensures routes[j].netmask == 0
  {
    Byteswap32Zero(routes[i].netmask);
    Byteswap32Zero(routes[j].netmask);
  }

  // ---------------------------------------------------------------- the list in place

  lemma BestIsUnique(hit: seq<bool>, rank: seq<int>, i: nat, j: nat)
    requires |hit| == |rank| && Best(hit, rank, |hit|, i) && Best(hit, rank, |hit|, j)
    ensures i == j
  {
  }

  /** A route in front wins if it matches and no longer mask did, and changes nothing else. */
  lemma LookupAfterAdd(routes: seq<Route>, r: Route, dst: u32)
    ensures var i := Lookup(routes, dst);
            Lookup([r] + routes, dst) ==
              if Matches(r, dst) && (i == |routes| || Byteswap32(routes[i].netmask) <= Byteswap32(r.netmask)) then 0
              else i + 1
  {
    var i, routes' := Lookup(routes, dst), [r] + routes;
    var hit, rank, hit', rank' := Hits(routes, dst), Ranks(routes), Hits(routes', dst), Ranks(routes');
    InFront(routes, r, dst);
    ScanFindsBest(hit, rank, 0, |routes|);
    ScanFindsBest(hit', rank', 0, |routes'|);
    Shifted(hit, rank, hit', rank', i, Lookup(routes', dst));
  }

  lemma InFront(routes: seq<Route>, r: Route, dst: u32)
    ensures Hits([r] + routes, dst)[1..] == Hits(routes, dst) && (Hits([r] + routes, dst)[0] <==> Matches(r, dst))
    ensures Ranks([r] + routes)[1..] == Ranks(routes) && Ranks([r] + routes)[0] == Byteswap32(r.netmask)
  {
  }

  lemma Shifted(hit: seq<bool>, rank: seq<int>, hit': seq<bool>, rank': seq<int>, i: nat, i': nat)
    requires |hit| == |rank| && |hit'| == |rank'| == |hit| + 1 && hit'[1..] == hit && rank'[1..] == rank
    requires if i == |hit| then NoHit(hit, |hit|) else Best(hit, rank, |hit|, i)
    requires if i' == |hit'| then NoHit(hit', |hit'|) else Best(hit', rank', |hit'|, i')
    ensures i' == if hit'[0] && (i == |hit| || rank[i] <= rank'[0]) then 0 else i + 1
  {
    assert forall j :: 0 <= j < |hit| ==> hit'[j + 1] == hit'[1..][j] && rank'[j + 1] == rank'[1..][j];
    assert forall j :: 0 < j < |hit'| ==> hit'[j] == hit[j - 1] && rank'[j] == rank[j - 1];
    if hit'[0] && (i == |hit| || rank[i] <= rank'[0]) {
      BestIsUnique(hit', rank', 0, i');
    } else if i < |hit| {
      BestIsUnique(hit', rank', i + 1, i');
    }
  }

  class RouteTable {
    /** The linked list, newest first. */
    var routes: seq<Route>

    constructor ()
      ensures routes == []
    {
      routes := [];
    }

    /** `ip_route_add`. The new route takes over exactly the destinations it matches for which
        the route found before, if any, has no longer mask; the others keep their route. */
    method Add(r: Route)
      modifies this
      ensures routes == [r] + old(routes)
      ensures forall dst: u32 ::
                var i, i' := Lookup(old(routes), dst), Lookup(routes, dst);
                if Matches(r, dst)
                   && (i == |old(routes)| || Byteswap32(old(routes)[i].netmask) <= Byteswap32(r.netmask)) then
                  i' == 0 && routes[0] == r
                else if i == |old(routes)| then i' == |routes|
                else i' == i + 1 && routes[i'] == old(routes)[i]
    {
      forall dst: u32 { LookupAfterAdd(routes, r, dst); }
      routes := [r] + routes;
    }

    /** `ip_route_lookup`. */
    method Find(dst: u32) returns (i: nat)
      ensures i == Lookup(routes, dst)
    {
      var candidate, k := |routes|, 0;
      while k < |routes|
        invariant 0 <= k <= |routes| && 0 <= candidate <= |routes|
        invariant ScanFrom(Hits(routes, dst), Ranks(routes), k, candidate) == Lookup(routes, dst)
      {
        if And32(dst, routes[k].netmask) == routes[k].network {
          if candidate == |routes| || Byteswap32(routes[candidate].netmask) < Byteswap32(routes[k].netmask) {
            candidate := k;
          }
        }
        k := k + 1;
      }
      i := candidate;
    }
  }
}
