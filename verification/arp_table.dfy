/** The ARP cache in the form of src/lib/arp.c: an array of entries updated in place, scan
    loops, and one method per locked region. Each method refines `ArpCache`. */
module ArpTable {
  import opened Options
  import opened Words
  import opened ArpCache

  class Table {
    const caches: array<Entry>
    var halfway: Option<Waiting>

    ghost predicate Valid()
      reads this
    {
      caches.Length == CACHE_SIZE
    }

    ghost function View(): State
      reads this, caches
    {
      State(caches[..], halfway)
    }

    constructor ()
      ensures Valid() && fresh(caches) && View() == Init()
    {
      caches := new Entry[CACHE_SIZE](_ => CLEARED);
      halfway := None;
      new;
      assert caches[..] == Init().cache;
    }

    /** `arp_cache_alloc`. */
    method CacheAlloc() returns (i: nat)
      requires Valid()
      ensures i == Alloc(caches[..]) && i < CACHE_SIZE
    {
      var oldest := CACHE_SIZE;
      i := 0;
      while i < CACHE_SIZE
        invariant 0 <= i <= CACHE_SIZE && 0 <= oldest <= CACHE_SIZE && (i > 0 ==> oldest < CACHE_SIZE)
        invariant AllocFrom(caches[..], i, oldest) == Alloc(caches[..])
      {
        if caches[i].state == Free {
          return;
        }
        if oldest == CACHE_SIZE || Later(caches[oldest].stamp, caches[i].stamp) {
          oldest := i;
        }
        i := i + 1;
      }
      i := oldest;
    }

    /** `arp_cache_select`; `CACHE_SIZE` stands for NULL. */
    method CacheSelect(pa: u32) returns (i: nat)
      requires Valid()
      ensures i == Select(caches[..], pa)
    {
      i := 0;
      while i < CACHE_SIZE
        invariant i <= CACHE_SIZE
        invariant SelectFrom(caches[..], pa, i) == Select(caches[..], pa)
      {
        if caches[i].state != Free && caches[i].pa == pa {
          return;
        }
        i := i + 1;
      }
    }

    /** `arp_cache_update`; false stands for NULL. */
    method CacheUpdate(now: Time, pa: u32, ha: Mac) returns (found: bool)
      requires Valid()
      modifies caches
      ensures caches[..] == Update(old(caches[..]), now, pa, ha)
      ensures found <==> Select(old(caches[..]), pa) < CACHE_SIZE
    {
      var i := CacheSelect(pa);
      if i == CACHE_SIZE {
        return false;
      }
      caches[i] := Entry(Resolved, caches[i].pa, ha, now);
      found := true;
    }

    /** `arp_cache_insert`. */
    method CacheInsert(now: Time, pa: u32, ha: Mac)
      requires Valid()
      modifies caches
      ensures caches[..] == Insert(old(caches[..]), now, pa, ha)
    {
      var i := CacheAlloc();
      caches[i] := Entry(Resolved, pa, ha, now);
    }

    /** The first locked region of `arp_input`. */
    method InputFirst(now: Time, m: Message, mine: bool)
      requires Valid() && halfway.None?
      modifies this`halfway, caches
      ensures View() == Next(old(View()), FirstHalf(now, m, mine))
    {
      var merged := CacheUpdate(now, m.spa, m.sha);
      halfway := Some(Waiting(m, merged, mine));
    }

    /** `arp_input` from the first unlock on. The result says whether it sends a reply. */
    method InputSecond(now: Time) returns (reply: bool)
      requires Valid() && halfway.Some?
      modifies this`halfway, caches
      ensures View() == Next(old(View()), SecondHalf(now))
      ensures reply <==> old(halfway).value.mine && old(halfway).value.msg.request
    {
      var w := halfway.value;
      reply := false;
      if w.mine {
        if !w.merged {
          CacheInsert(now, w.msg.spa, w.msg.sha);
        }
        reply := w.msg.request;
      }
      halfway := None;
    }

    /** The locked region of `arp_resolve`. */
    method ResolveAddress(now: Time, pa: u32) returns (a: Answer)
      requires Valid()
      modifies caches
      ensures View() == Next(old(View()), Ask(now, pa))
      ensures a == Resolve(old(caches[..]), now, pa).1
    {
      var i := CacheSelect(pa);
      if i == CACHE_SIZE {
        i := CacheAlloc();
        caches[i] := Entry(Incomplete, pa, caches[i].ha, now);
        return Pending(true);
      }
      if caches[i].state == Incomplete {
        return Pending(false);
      }
      a := Found(caches[i].ha);
    }

    /** `arp_timer` with `arp_cache_delete`. */
    method Timer(now: Time)
      requires Valid() && halfway.None?
      modifies caches
      ensures View() == Next(old(View()), Tick(now))
    {
      var i := 0;
      while i < CACHE_SIZE
        invariant 0 <= i <= CACHE_SIZE
        invariant forall j :: 0 <= j < CACHE_SIZE ==>
                    caches[j] == if j < i then Sweep(old(caches[..]), now)[j] else old(caches[j])
      {
        if caches[i].state != Free && caches[i].state != Static && SubSeconds(now, caches[i].stamp) > CACHE_TIMEOUT {
          caches[i] := CLEARED;
        }
        i := i + 1;
      }
      assert caches[..] == Sweep(old(caches[..]), now);
    }
  }
}
