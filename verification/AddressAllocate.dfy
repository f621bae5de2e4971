/**
  The DHCPv4 allocator of dnsmasq: it walks each eligible range once around from a seed, first
  the ranges that the client's tags select and then all that they allow, and takes the first
  address that nothing speaks against.
*/
module AddressAllocate {

  import opened Common

  type Addr = x: int | 0 <= x < 0x1_0000_0000

  /** tagged and allowed are match_netid in the first and in the second pass. */
  datatype Context = Context(staticOrProxy: bool, tagged: bool, allowed: bool, first: Addr, last: Addr, router: Addr)

  datatype Ping = Ping(addr: Addr, time: int, hash: int)

  /** Leases, addresses reserved in the configuration, and the two options. */
  datatype Setting = Setting(contexts: seq<Context>, leases: seq<Addr>, reserved: seq<Addr>, consecutive: bool,
    noPing: bool)

  const PingCacheTime: int := 30
  const MaxPings: nat := 6     // 60% of the pings that fit into PING_CACHE_TIME at PING_WAIT

  // ---------- What speaks against an address ----------

  /** An address of class C that ends in .0 or .255. */
  predicate BadEnding(a: Addr) {
    a / 0x2000_0000 == 6 && (a % 256 == 0 || a % 256 == 255)
  }

  ghost predicate Usable(s: Setting, a: Addr) {
    && (forall i :: 0 <= i < |s.contexts| ==> s.contexts[i].router != a)
    && a !in s.leases && a !in s.reserved && !BadEnding(a)
  }

  predicate Recent(p: Ping, now: int) {
    now - p.time <= PingCacheTime
  }

  /** The first recent record of an address, or the end of the list. */
  function FirstRecent(pings: seq<Ping>, a: Addr, now: int, i: nat): (k: nat)
    requires i <= |pings|
    ensures i <= k <= |pings| && (k < |pings| ==> pings[k].addr == a && Recent(pings[k], now))
    decreases |pings| - i
  {
    if i == |pings| || (pings[i].addr == a && Recent(pings[i], now)) then i else FirstRecent(pings, a, now, i + 1)
  }

  function RecentCount(pings: seq<Ping>, now: int, k: nat): nat
    requires k <= |pings|
  {
    if k == 0 then 0 else RecentCount(pings, now, k - 1) + if Recent(pings[k - 1], now) then 1 else 0
  }

  /** In consecutive mode: recently offered to a client with another hash. */
  predicate OfferedElsewhere(s: Setting, pings: seq<Ping>, a: Addr, now: int, hash: int) {
    var k := FirstRecent(pings, a, now, 0);
    s.consecutive && k < |pings| && pings[k].hash != hash
  }

  predicate OfferedHere(s: Setting, pings: seq<Ping>, a: Addr, now: int, hash: int) {
    var k := FirstRecent(pings, a, now, 0);
    k < |pings| && !(s.consecutive && pings[k].hash != hash)
  }

  /** A range is not empty; in the mode that divides by its size it is not the whole space. */
  predicate Proper(s: Setting, c: Context) {
    c.first <= c.last && (s.consecutive || c.last - c.first < 0xFFFF_FFFF)
  }

  predicate Eligible(c: Context, pass: nat) {
    !c.staticOrProxy && if pass == 0 then c.tagged else c.allowed
  }

  predicate InRange(c: Context, a: Addr) {
    c.first <= a <= c.last
  }

  /** The SDBM hash of a hardware address. */
  function Hash(hw: seq<int>, n: nat): (h: Addr)
    requires n <= |hw|
  {
    if n == 0 then 0 else
    var j := Hash(hw, n - 1);
    (hw[n - 1] + j * 64 + j * 65536) % 0x1_0000_0000
  }

  /** The address was pinged, as no recent record speaks for it and not too many pings were sent,
      and it answered. Ping number m of the call went to asked[m]. */
  ghost predicate Answered(s: Setting, pings: seq<Ping>, now: int, network: nat -> bool, asked: seq<Addr>, a: Addr) {
    && !s.noPing && FirstRecent(pings, a, now, 0) == |pings| && RecentCount(pings, now, |pings|) < MaxPings
    && exists m :: 0 <= m < |asked| && asked[m] == a && network(m)
  }

  ghost predicate Refused(s: Setting, pings: seq<Ping>, now: int, hash: int, network: nat -> bool, asked: seq<Addr>,
                          a: Addr) {
    !Usable(s, a) || Answered(s, pings, now, network, asked, a) || OfferedElsewhere(s, pings, a, now, hash)
  }

  /** Everything in the range is refused for a reason: it is not usable, answered a ping, or was
      offered to another client. */
  ghost predicate Exhausted(s: Setting, c: Context, pings: seq<Ping>, now: int, hash: int, network: nat -> bool,
                            asked: seq<Addr>) {
    forall a: Addr :: InRange(c, a) ==> Refused(s, pings, now, hash, network, asked, a)
  }

  /** What an allocated address is: usable, not recently offered to another client, and, unless it
      was recently offered to this one or pings are off or too many, silent when last pinged. */
  ghost predicate Granted(s: Setting, pings: seq<Ping>, now: int, hash: int, network: nat -> bool, asked: seq<Addr>,
                          a: Addr) {
    && Usable(s, a) && !OfferedElsewhere(s, pings, a, now, hash)
    && (|| OfferedHere(s, pings, a, now, hash) || s.noPing || RecentCount(pings, now, |pings|) >= MaxPings
        || (asked != [] && asked[|asked| - 1] == a && !network(|asked| - 1)))
  }

  class Allocator {
    const s: Setting
    var pings: seq<Ping>
    var epochs: seq<nat>

    ghost predicate Valid()
      reads this
    {
      |epochs| == |s.contexts| && forall i :: 0 <= i < |s.contexts| ==> Proper(s, s.contexts[i])
    }

    constructor (s: Setting)
      requires forall i :: 0 <= i < |s.contexts| ==> Proper(s, s.contexts[i])
      ensures Valid() && this.s == s && pings == []
    {
      this.s := s;
      pings, epochs := [], seq(|s.contexts|, _ => 0);
    }

    method HashOf(hw: seq<int>) returns (j: Addr)
      ensures j == Hash(hw, |hw|)
    {
      j := 0;
      for i := 0 to |hw|
        invariant j == Hash(hw, i)
      {
        j := (hw[i] + j * 64 + j * 65536) % 0x1_0000_0000;
      }
    }

    /** lease_find_max_addr: the largest lease in the range, or its first address. */
    method LeaseFindMax(c: Context) returns (addr: Addr)
      requires c.first <= c.last
      ensures InRange(c, addr) && (addr == c.first || addr in s.leases)
      ensures forall i :: 0 <= i < |s.leases| && InRange(c, s.leases[i]) ==> s.leases[i] <= addr
    {
      addr := c.first;
      for i := 0 to |s.leases|
        invariant InRange(c, addr) && (addr == c.first || addr in s.leases)
        invariant forall k :: 0 <= k < i && InRange(c, s.leases[k]) ==> s.leases[k] <= addr
      {
        if s.leases[i] > c.first && s.leases[i] <= c.last && s.leases[i] > addr {
          addr := s.leases[i];
        }
      }
    }

    /** The checks that do not depend on the network. */
    method IsUsable(a: Addr) returns (ok: bool)
      ensures ok <==> Usable(s, a)
    {
      var d := 0;
      while d < |s.contexts| && s.contexts[d].router != a
        invariant 0 <= d <= |s.contexts| && forall i :: 0 <= i < d ==> s.contexts[i].router != a
      {
        d := d + 1;
      }
      ok := d == |s.contexts| && a !in s.leases && a !in s.reserved && !BadEnding(a);
    }

    /** The walk over the ping list: it stops at the first recent record of the address. */
    method ScanPings(a: Addr, now: int) returns (r: nat, count: nat, victim: Option<nat>)
      ensures r == FirstRecent(pings, a, now, 0)
      ensures count == RecentCount(pings, now, if r < |pings| then r + 1 else r)
      ensures victim.Some? ==> victim.value < |pings| && !Recent(pings[victim.value], now)
    {
      r, count, victim := 0, 0, None;
      while r < |pings|
        invariant r <= |pings| && FirstRecent(pings, a, now, 0) == FirstRecent(pings, a, now, r)
        invariant count == RecentCount(pings, now, r)
        invariant victim.Some? ==> victim.value < |pings| && !Recent(pings[victim.value], now)
      {
        if !Recent(pings[r], now) {
          victim := Some(r);
        } else {
          count := count + 1;
          if pings[r].addr == a {
            return;
          }
        }
        r := r + 1;
      }
    }

    /** One address that is usable. ping is the answer a ping would get, and memory whether a new
        record can be had. */
    method Consider(a: Addr, i: nat, j: Addr, now: int, ping: bool, memory: bool) returns (taken: bool, pinged: bool)
      requires Valid() && i < |s.contexts|
      modifies this`pings, this`epochs
      ensures Valid()
      ensures !taken ==> pings == old(pings) && ((pinged && ping) || OfferedElsewhere(s, pings, a, now, j))
      ensures taken ==> !OfferedElsewhere(s, old(pings), a, now, j)
      ensures pinged <==>
        && FirstRecent(old(pings), a, now, 0) == |old(pings)|
        && RecentCount(old(pings), now, |old(pings)|) < MaxPings && !s.noPing
      ensures taken ==> OfferedHere(s, old(pings), a, now, j) || !pinged || !ping
      ensures taken && memory ==> exists k :: 0 <= k < |pings| && pings[k].addr == a && Recent(pings[k], now)
    {
      pinged := false;
      var r, count, victim := ScanPings(a, now);
      if r < |pings| {
        taken := !(s.consecutive && pings[r].hash != j);
        return;
      }
      pinged := count < MaxPings && !s.noPing;
      if count < MaxPings && !s.noPing && ping {
        if !s.consecutive {
          epochs := epochs[i := epochs[i] + 1];
        }
        return false, pinged;
      }
      if victim.None? && memory {
        pings := [Ping(0, now, 0)] + pings;
        victim := Some(0);
      }
      if victim.Some? {
        pings := pings[victim.value := Ping(a, now, j)];
        assert pings[victim.value].addr == a;
      }
      taken := true;
    }

    /** The seed of the walk. */
    method Seed(i: nat, j: Addr) returns (start: Addr)
      requires Valid() && i < |s.contexts|
      ensures InRange(s.contexts[i], start)
    {
      var c := s.contexts[i];
      if s.consecutive {
        start := LeaseFindMax(c);
      } else {
        start := c.first + (j + epochs[i]) % 0x1_0000_0000 % (1 + c.last - c.first);
      }
    }

    /** One range, once around from its seed. network answers the pings in turn; asked, of which n
        is the length, is where they went. On failure every address of the range was refused. */
    method WalkRange(i: nat, j: Addr, now: int, network: nat -> bool, n: nat, memory: bool, ghost before: seq<Addr>)
      returns (r: Option<Addr>, n': nat, ghost asked: seq<Addr>)
      requires Valid() && i < |s.contexts| && n == |before|
      modifies this`pings, this`epochs
      ensures Valid() && before <= asked && n' == |asked|
      ensures r.None? ==> pings == old(pings) && Exhausted(s, s.contexts[i], pings, now, j, network, asked)
      ensures r.Some? ==> InRange(s.contexts[i], r.value) && Granted(s, old(pings), now, j, network, asked, r.value)
      ensures r.Some? && memory ==> exists k :: 0 <= k < |pings| && pings[k].addr == r.value && Recent(pings[k], now)
    {
      var c := s.contexts[i];
      var start := Seed(i, j);
      var addr: Addr := start;
      ghost var around := false;
      n', asked := n, before;
      while true
        invariant Valid() && pings == old(pings) && before <= asked && n' == |asked| && InRange(c, addr)
        invariant if around then addr < start else start <= addr
        invariant forall a: Addr :: InRange(c, a) && Passed(start, addr, around, a) ==>
          Refused(s, pings, now, j, network, asked, a)
        decreases !around, c.last - addr
      {
        var ok := IsUsable(addr);
        ghost var was := asked;
        if ok {
          var taken, pinged := Consider(addr, i, j, now, network(n'), memory);
          if pinged {
            asked := asked + [addr];
            n' := n' + 1;
            assert asked[n' - 1] == addr;
          }
          if taken {
            return Some(addr), n', asked;
          }
        }
        RefusedGrows(s, pings, now, j, network, was, asked);
        assert Refused(s, pings, now, j, network, asked, addr);
        if addr == c.last {
          around := true;
        }
        addr := Next(c, addr);
        if addr == start {
          break;
        }
      }
      r := None;
    }

    /** address_allocate. An address comes from the first eligible range, in the order of the two
        passes, that is not exhausted; on failure all of them are. */
    method Allocate(hw: seq<int>, now: int, network: nat -> bool, memory: bool)
      returns (r: Option<Addr>, ghost pass: nat, ghost i: nat, ghost asked: seq<Addr>)
      requires Valid()
      modifies this`pings, this`epochs
      ensures Valid()
      ensures var j := Hash(hw, |hw|);
              && (forall p, k ::
                    0 <= p < 2 && 0 <= k < |s.contexts| && Before(p, k, pass, i) && Eligible(s.contexts[k], p) ==>
                      Exhausted(s, s.contexts[k], old(pings), now, j, network, asked))
              && (r.None? ==> pings == old(pings) && pass == 2)
              && (r.Some? ==>
                    && pass < 2 && i < |s.contexts| && Eligible(s.contexts[i], pass)
                    && InRange(s.contexts[i], r.value) && Granted(s, old(pings), now, j, network, asked, r.value))
    {
      var j := HashOf(hw);
      var n := 0;
      pass, asked, i := 0, [], 0;
      for p := 0 to 2
        invariant Valid() && pings == old(pings) && n == |asked|
        invariant forall q, k :: 0 <= q < p && 0 <= k < |s.contexts| && Eligible(s.contexts[k], q) ==>
                    Exhausted(s, s.contexts[k], pings, now, j, network, asked)
      {
        for c := 0 to |s.contexts|
          invariant Valid() && pings == old(pings) && n == |asked|
          invariant forall q, k ::
                      0 <= q < 2 && 0 <= k < |s.contexts| && Before(q, k, p, c) && Eligible(s.contexts[k], q) ==>
                        Exhausted(s, s.contexts[k], pings, now, j, network, asked)
        {
          if Eligible(s.contexts[c], p) {
            ghost var was := asked;
            r, n, asked := WalkRange(c, j, now, network, n, memory, asked);
            RefusedGrows(s, old(pings), now, j, network, was, asked);
            if r.Some? {
              pass, i := p, c;
              return;
            }
          }
        }
      }
      r, pass, i := None, 2, 0;
    }
  }

  /** The address after a, or the first of the range after the last, in 32-bit arithmetic. */
  function Next(c: Context, a: Addr): (r: Addr)
    requires InRange(c, a)
    ensures r == if a == c.last then c.first else a + 1
  {
    var next := ((a as int) + 1) % 0x1_0000_0000;
    if next == ((c.last as int) + 1) % 0x1_0000_0000 then c.first else next
  }

  /** Pass p on range k comes before pass q on range l. */
  predicate Before(p: int, k: int, q: int, l: int) {
    p < q || (p == q && k < l)
  }

  /** The walk from start to addr has passed a. */
  predicate Passed(start: Addr, addr: Addr, around: bool, a: Addr) {
    if around then a >= start || a < addr else start <= a < addr
  }

  /** More pings take no reason away. */
  lemma RefusedGrows(s: Setting, pings: seq<Ping>, now: int, hash: int, network: nat -> bool, less: seq<Addr>,
                     more: seq<Addr>)
    requires less <= more
    ensures forall a: Addr :: Refused(s, pings, now, hash, network, less, a) ==>
      Refused(s, pings, now, hash, network, more, a)
  {
  }
}
