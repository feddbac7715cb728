/** The ARP cache of net/arp.c as a bounded map from addresses to MACs. */
module Arp {
  import opened Bytes

  const ARP_CACHE_SIZE := 32

  type Mac = s: seq<Byte> | |s| == 6 witness seq<Byte>(6, _ => 0)

  datatype ArpEntry = ArpEntry(ip: U32, mac: Mac, timestamp: U32, valid: bool)

  type Cache = s: seq<ArpEntry> | |s| == ARP_CACHE_SIZE witness seq<ArpEntry>(32, _ => ArpEntry(0, [0, 0, 0, 0, 0, 0], 0, false))

  datatype Answer = Unknown | Known(mac: Mac)

  // ---------------------------------------------------------------- what the scans compute

  /** The first slot that is unused or holds `ip`, or 32. */
  function Stop(es: Cache, ip: U32, i: nat := 0): (k: nat)
    requires i <= ARP_CACHE_SIZE
    ensures i <= k <= ARP_CACHE_SIZE
    ensures k < ARP_CACHE_SIZE ==> !es[k].valid || es[k].ip == ip
    ensures forall q | i <= q < k :: es[q].valid && es[q].ip != ip
    decreases |es| - i
  {
    if i == ARP_CACHE_SIZE || !es[i].valid || es[i].ip == ip then i else Stop(es, ip, i + 1)
  }

  /** The first slot among the first `n` with the least timestamp below 2^32 - 1, else 0; and that timestamp. */
  function Oldest(es: Cache, n: nat): (r: (nat, U32))
    requires n <= ARP_CACHE_SIZE
    ensures r.0 < ARP_CACHE_SIZE
  {
    if n == 0 then (0, 0xFFFF_FFFF)
    else
      var (index, time) := Oldest(es, n - 1);
      if es[n - 1].timestamp < time then (n - 1, es[n - 1].timestamp) else (index, time)
  }

  /** The first valid slot holding `ip`, or 32. */
  function Match(es: Cache, ip: U32, i: nat := 0): (k: nat)
    requires i <= ARP_CACHE_SIZE
    ensures i <= k <= ARP_CACHE_SIZE
    ensures k < ARP_CACHE_SIZE ==> es[k].valid && es[k].ip == ip
    ensures forall q | i <= q < k :: !(es[q].valid && es[q].ip == ip)
    decreases |es| - i
  {
    if i == ARP_CACHE_SIZE || (es[i].valid && es[i].ip == ip) then i else Match(es, ip, i + 1)
  }

  function Find(es: Cache, ip: U32): Answer {
    var k := Match(es, ip);
    if k < ARP_CACHE_SIZE then Known(es[k].mac) else Unknown
  }

  function Added(es: Cache, timer: U32, ip: U32, mac: Mac): Cache {
    var k := Stop(es, ip);
    if k < ARP_CACHE_SIZE && es[k].valid then es[k := es[k].(mac := mac, timestamp := timer)]
    else es[(if k < ARP_CACHE_SIZE then k else Oldest(es, ARP_CACHE_SIZE).0) := ArpEntry(ip, mac, timer, true)]
  }

  // ---------------------------------------------------------------- the code

  class ArpCache {
    const cache: array<ArpEntry>
    /** Set to zero by `arp_init` and never advanced. */
    var timer: U32

    ghost predicate Valid() { cache.Length == ARP_CACHE_SIZE }

    ghost function State(): Cache
      requires Valid()
      reads cache
    {
      cache[..]
    }

    /** `arp_init` */
    constructor ()
      ensures Valid() && fresh(cache) && timer == 0 && forall i | 0 <= i < ARP_CACHE_SIZE :: !State()[i].valid
    {
      cache := new ArpEntry[ARP_CACHE_SIZE](i => ArpEntry(0, [0, 0, 0, 0, 0, 0], 0, false));
      timer := 0;
    }

    /** `arp_add_entry` */
    method AddEntry(ip: U32, mac: Mac)
      requires Valid()
      modifies cache
      ensures State() == Added(old(State()), timer, ip, mac)
    {
      hide Stop;
      ghost var es: Cache := cache[..];
      var oldestIndex := 0;
      var oldestTime: U32 := 0xFFFF_FFFF;
      var i := 0;
      while i < ARP_CACHE_SIZE
        invariant 0 <= i <= ARP_CACHE_SIZE && cache[..] == es
        invariant forall q | 0 <= q < i :: es[q].valid && es[q].ip != ip
        invariant (oldestIndex, oldestTime) == Oldest(es, i)
      {
        if cache[i].valid && cache[i].ip == ip {
          cache[i] := cache[i].(mac := mac, timestamp := timer);
          return;
        }
        if !cache[i].valid {
          oldestIndex := i;
          break;
        }
        if cache[i].timestamp < oldestTime {
          oldestTime := cache[i].timestamp;
          oldestIndex := i;
        }
        i := i + 1;
      }
      cache[oldestIndex] := ArpEntry(ip, mac, timer, true);
    }

    /** `arp_resolve` */
    method Resolve(ip: U32) returns (answer: Answer)
      requires Valid()
      ensures answer == Find(State(), ip)
    {
      hide Match;
      var i := 0;
      while i < ARP_CACHE_SIZE
        invariant 0 <= i <= ARP_CACHE_SIZE
        invariant forall q | 0 <= q < i :: !(cache[q].valid && cache[q].ip == ip)
      {
        if cache[i].valid && cache[i].ip == ip {
          return Known(cache[i].mac);
        }
        i := i + 1;
      }
      answer := Unknown;
    }
  }

  // ---------------------------------------------------------------- the cache as a map

  /** The first `n` slots are valid, hold different addresses and carry timestamp zero; the rest are unused. */
  ghost predicate Filled(es: Cache, n: nat) {
    && n <= ARP_CACHE_SIZE
    && (forall i | 0 <= i < ARP_CACHE_SIZE :: es[i].valid <==> i < n)
    && (forall i | 0 <= i < n :: es[i].timestamp == 0)
    && (forall i, j | 0 <= i < j < n :: es[i].ip != es[j].ip)
  }

  lemma {:induction false} OldestIsFirst(es: Cache, n: nat)
    requires 1 <= n <= ARP_CACHE_SIZE && forall i | 0 <= i < n :: es[i].timestamp == 0
    ensures Oldest(es, n) == (0, 0)
  {
    if n > 1 {
      OldestIsFirst(es, n - 1);
    }
  }

  /** Where an addition lands in a filled cache: on its own address, in the first unused slot, or in slot 0. */
  lemma AddedAt(es: Cache, n: nat, ip: U32, mac: Mac)
    requires Filled(es, n)
    ensures var m := Match(es, ip);
      var at := if m < ARP_CACHE_SIZE then m else if n < ARP_CACHE_SIZE then n else 0;
      && (m < ARP_CACHE_SIZE ==> m < n)
      && Added(es, 0, ip, mac) == es[at := ArpEntry(ip, mac, 0, true)]
  {
    hide Stop, Match, Oldest;
    var m, k := Match(es, ip), Stop(es, ip);
    if m < ARP_CACHE_SIZE {
      assert es[m].valid && k == m;
    } else if n < ARP_CACHE_SIZE {
      assert !es[n].valid && k == n;
    } else {
      assert k == ARP_CACHE_SIZE;
      OldestIsFirst(es, ARP_CACHE_SIZE);
    }
  }

  lemma AddedKeeps(es: Cache, n: nat, ip: U32, mac: Mac)
    requires Filled(es, n)
    ensures var n' := if Find(es, ip) == Unknown && n < ARP_CACHE_SIZE then n + 1 else n;
      Filled(Added(es, 0, ip, mac), n')
  {
    hide Match, Added;
    AddedAt(es, n, ip, mac);
  }

  /** Adding binds the address, and changes no other binding but one: an absent address added to a full table
      takes the place of slot 0. */
  lemma AddIsMapUpdate(es: Cache, n: nat, ip: U32, mac: Mac, q: U32)
    requires Filled(es, n)
    ensures Find(Added(es, 0, ip, mac), q) ==
      if q == ip then Known(mac)
      else if Find(es, ip) == Unknown && n == ARP_CACHE_SIZE && q == es[0].ip then Unknown
      else Find(es, q)
  {
    hide Match, Added;
    AddedAt(es, n, ip, mac);
    var r := Added(es, 0, ip, mac);
    var m, m' := Match(es, q), Match(r, q);
    var k := Match(es, ip);
    var at := if k < ARP_CACHE_SIZE then k else if n < ARP_CACHE_SIZE then n else 0;
    assert forall i | 0 <= i < ARP_CACHE_SIZE && i != at :: r[i] == es[i];
    if q == ip {
      assert r[at].valid && r[at].ip == q && m' == at;
    } else if m < ARP_CACHE_SIZE && m != at {
      assert r[m] == es[m] && m' == m;
    }
  }

  function AddAll(es: Cache, adds: seq<(U32, Mac)>): Cache
    decreases |adds|
  {
    if adds == [] then es else AddAll(Added(es, 0, adds[0].0, adds[0].1), adds[1..])
  }

  /** In every state reached from `arp_init` the valid entries form a prefix with distinct addresses. */
  lemma {:induction false} ReachableIsFilled(es: Cache, n: nat, adds: seq<(U32, Mac)>)
    returns (m: nat)
    requires Filled(es, n)
    ensures Filled(AddAll(es, adds), m)
    decreases |adds|
  {
    hide Added, Filled;
    if adds == [] {
      m := n;
    } else {
      AddedKeeps(es, n, adds[0].0, adds[0].1);
      var n' := if Find(es, adds[0].0) == Unknown && n < ARP_CACHE_SIZE then n + 1 else n;
      m := ReachableIsFilled(Added(es, 0, adds[0].0, adds[0].1), n', adds[1..]);
    }
  }

  lemma CacheOverRuns(es: Cache, adds: seq<(U32, Mac)>)
    requires forall i | 0 <= i < ARP_CACHE_SIZE :: !es[i].valid
    ensures exists n :: Filled(AddAll(es, adds), n)
  {
    var n := ReachableIsFilled(es, 0, adds);
  }
}
