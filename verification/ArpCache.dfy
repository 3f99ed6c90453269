/** The ARP cache: a ring of entries linked by one-byte offsets inside a byte array. */
module ArpCache {
  import opened Bytes

  const ENTRY := 12        // prev, next, 4 address bytes, 6 hardware bytes
  const MAX_ENTRIES := 21  // so that every offset fits in a byte

  const ZERO_IP: Str := [0, 0, 0, 0]
  const ALL_ONES: Str := [0xff, 0xff, 0xff, 0xff]
  const ZERO_MAC: Str := [0, 0, 0, 0, 0, 0]

  /** Offset of entry `i`. */
  function Slot(i: nat): nat { 2 + i * ENTRY }

  function Prev(i: nat, n: nat): (r: nat)
    requires i < n
    ensures r < n
  {
    if i == 0 then n - 1 else i - 1
  }

  function Next(i: nat, n: nat): (r: nat)
    requires i < n
    ensures r < n
  {
    if i == n - 1 then 0 else i + 1
  }

  /** `k` links on from entry `h`. */
  function Onward(h: nat, k: nat, n: nat): (r: nat)
    requires h < n && k < n
    ensures r < n
  {
    if h + k < n then h + k else h + k - n
  }

  // ----- what the bytes mean -----

  predicate Sized(m: Str, n: nat) { 1 <= n <= MAX_ENTRIES && |m| == Slot(n) }

  function IpAt(m: Str, i: nat): (r: Str)
    requires Slot(i) + ENTRY <= |m|
    ensures |r| == 4
  {
    m[Slot(i) + 2..Slot(i) + 6]
  }

  function MacAt(m: Str, i: nat): (r: Str)
    requires Slot(i) + ENTRY <= |m|
    ensures |r| == 6
  {
    m[Slot(i) + 6..Slot(i) + 12]
  }

  lemma SlotInside(m: Str, n: nat, i: nat)
    requires Sized(m, n) && i < n
    ensures Slot(i) + ENTRY <= |m| && Slot(i) < 0x100
  {
  }

  /** The links are one cycle through all entries, in both directions. */
  ghost predicate Linked(m: Str, n: nat) {
    Sized(m, n) &&
    forall i :: 0 <= i < n ==>
      Slot(i) + ENTRY <= |m| && m[Slot(i)] as nat == Slot(Prev(i, n)) && m[Slot(i) + 1] as nat == Slot(Next(i, n))
  }

  /** p[1] points at the head, p[0] at the entry before it: the last. */
  ghost predicate Headed(m: Str, n: nat, h: nat) {
    Sized(m, n) && h < n && m[1] as nat == Slot(h) && m[0] as nat == Slot(Prev(h, n))
  }

  /** The entries by position, and which of them is the head. */
  datatype Cache = Cache(head: nat, ips: seq<Str>, macs: seq<Str>)

  predicate Sound(c: Cache) {
    0 < |c.ips| == |c.macs| && c.head < |c.ips|
  }

  /** The cache before anything is stored in it. */
  function Zeroed(n: nat): (r: Cache)
    requires 0 < n
    ensures Sound(r)
  {
    Cache(0, seq(n, i => ZERO_IP), seq(n, i => ZERO_MAC))
  }

  /** The bytes represent the cache. */
  ghost predicate Represents(m: Str, n: nat, c: Cache) {
    Linked(m, n) && Headed(m, n, c.head) && |c.ips| == |c.macs| == n &&
    forall i :: 0 <= i < n ==> Slot(i) + ENTRY <= |m| && c.ips[i] == IpAt(m, i) && c.macs[i] == MacAt(m, i)
  }

  /** No two entries share an address other than zero. */
  ghost predicate Unique(c: Cache) {
    forall i, j :: 0 <= i < j < |c.ips| && c.ips[i] != ZERO_IP ==> c.ips[i] != c.ips[j]
  }

  /** A pointer to six hardware address bytes, or NULL. */
  datatype MacRef = Null | BroadcastMac | EntryMac(offset: nat)

  /** The first entry with this address in link order, counting from the `k`-th after the head. */
  function FirstFrom(c: Cache, ip: Str, k: nat): (r: nat)
    requires 0 < |c.ips| && c.head < |c.ips| && k <= |c.ips|
    ensures r == |c.ips| || (r < |c.ips| && c.ips[r] == ip)
    decreases |c.ips| - k
  {
    if k == |c.ips| then |c.ips|
    else if c.ips[Onward(c.head, k, |c.ips|)] == ip then Onward(c.head, k, |c.ips|)
    else FirstFrom(c, ip, k + 1)
  }

  /** arp_cache_find as a function of the cache: a hit makes the entry the head. */
  function Lookup(c: Cache, ip: Str, broadcast: Str): (MacRef, Cache)
    requires 0 < |c.ips| && c.head < |c.ips|
  {
    if ip == ZERO_IP then (Null, c)
    else if ip == ALL_ONES || ip == broadcast then (BroadcastMac, c)
    else
      var i := FirstFrom(c, ip, 0);
      if i == |c.ips| then (Null, c) else (EntryMac(Slot(i) + 6), c.(head := i))
  }

  /** arp_cache_add as a function of the cache: a new address replaces the last entry, which becomes the head. */
  function Insert(c: Cache, ip: Str, mac: Str, broadcast: Str): Cache
    requires 0 < |c.ips| == |c.macs| && c.head < |c.ips|
  {
    if ip == ZERO_IP || ip == ALL_ONES then c
    else
      var (r, found) := Lookup(c, ip, broadcast);
      if r != Null then found
      else
        var last := Prev(c.head, |c.ips|);
        Cache(last, c.ips[last := ip], c.macs[last := mac])
  }

  // ----- the code -----

  class Arp {
    const n: nat
    const p: array<Byte>
    const broadcast: Str   // ifp->ip | ~ifp->mask
    ghost var cache: Cache

    ghost predicate Valid()
      reads this, p
    {
      Represents(p[..], n, cache)
    }

    /** Zeroed memory, then arp_cache_init. */
    constructor (n: nat, broadcast: Str)
      requires 1 <= n <= MAX_ENTRIES
      ensures this.n == n && this.broadcast == broadcast && fresh(p) && Valid()
      ensures cache == Zeroed(n)
    {
      this.n := n;
      this.broadcast := broadcast;
      p := new Byte[Slot(n)](i => 0);
      cache := Zeroed(n);
      new;
      Init();
    }

    /** arp_cache_init */
    method Init()
      requires 1 <= n <= MAX_ENTRIES && p.Length == Slot(n) && forall k :: 0 <= k < p.Length ==> p[k] == 0
      requires cache == Zeroed(n)
      modifies p
      ensures Valid()
    {
      LinkBackward();
      LinkForward();
      LastSlots(n);
      p[2] := Slot(n - 1);
      p[0] := p[2];
      p[3 + (n - 1) * ENTRY] := 2;
      p[1] := p[3 + (n - 1) * ENTRY];
      InitialRing(p[..], n);
    }

    /** The first loop: every entry but the first points back. */
    method LinkBackward()
      requires 1 <= n <= MAX_ENTRIES && p.Length == Slot(n) && forall k :: 0 <= k < p.Length ==> p[k] == 0
      modifies p
      ensures forall k :: 0 < k < n ==> p[Slot(k)] as nat == Slot(k - 1)
      ensures forall k :: 0 <= k < p.Length && k % ENTRY != 2 ==> p[k] == 0
    {
      var i := 0;
      while i < n
        invariant 0 <= i <= n
        invariant forall k :: 0 < k < i ==> p[Slot(k)] as nat == Slot(k - 1)
        invariant forall k :: 0 <= k < p.Length && k % ENTRY != 2 ==> p[k] == 0
      {
        // (uint8_t) (2 + (i - 1) * size): for i = 0 it wraps, and is overwritten by Init
        p[Slot(i)] := if i == 0 then 246 else Slot(i - 1);
        i := i + 1;
      }
    }

    /** The second loop: every entry but the last points on. */
    method LinkForward()
      requires 1 <= n <= MAX_ENTRIES && p.Length == Slot(n)
      requires forall k :: 0 < k < n ==> p[Slot(k)] as nat == Slot(k - 1)
      requires forall k :: 0 <= k < p.Length && k % ENTRY != 2 ==> p[k] == 0
      modifies p
      ensures forall k :: 0 < k < n ==> p[Slot(k)] as nat == Slot(k - 1)
      ensures forall k :: 0 <= k < n ==> p[Slot(k) + 1] as nat == Slot(k + 1)
      ensures forall k :: 0 <= k < p.Length && k % ENTRY != 2 && k % ENTRY != 3 ==> p[k] == 0
    {
      var i := 0;
      while i < n
        invariant 0 <= i <= n
        invariant forall k :: 0 < k < n ==> p[Slot(k)] as nat == Slot(k - 1)
        invariant forall k :: 0 <= k < i ==> p[Slot(k) + 1] as nat == Slot(k + 1)
        invariant forall k :: 0 <= k < p.Length && k % ENTRY != 2 && k % ENTRY != 3 ==> p[k] == 0
      {
        p[Slot(i) + 1] := Slot(i + 1);
        i := i + 1;
      }
    }

    /** arp_cache_find */
    method Find(ip: Str) returns (r: MacRef)
      requires Valid() && |ip| == 4
      modifies this`cache, p
      ensures Valid() && (r, cache) == Lookup(old(cache), ip, broadcast)
    {
      if ip == ZERO_IP {
        return Null;
      }
      if ip == ALL_ONES || ip == broadcast {
        return BroadcastMac;
      }
      hide Represents, Slot, FirstFrom;
      HeadFacts(p[..], n, cache);
      ghost var e;
      var j;
      j, e := Search(ip);
      if j == 0 {
        return Null;
      }
      PointHead(j, e);
      return EntryMac(j + 6);
    }

    /** The loop of arp_cache_find: the offset of the first entry with this address, or 0. */
    method Search(ip: Str) returns (j: nat, ghost e: nat)
      requires Valid() && |ip| == 4
      ensures |cache.ips| == n && cache.head < n && e == FirstFrom(cache, ip, 0)
      ensures if e == n then j == 0 else 2 <= j == Slot(e)
      ensures j == if FirstFrom(cache, ip, 0) == n then 0 else Slot(FirstFrom(cache, ip, 0))
    {
      hide Represents, Slot, IpAt, FirstFrom, Onward, Next;
      ghost var c, m := cache, p[..];
      HeadFacts(m, n, c);
      var i: nat := 0;
      j := p[1] as nat;
      while i < n
        invariant i <= n
        invariant i < n ==> j == Slot(Onward(c.head, i, n))
        invariant FirstFrom(c, ip, i) == FirstFrom(c, ip, 0)
      {
        e := Onward(c.head, i, n);
        EntryFacts(m, n, c, e);
        FirstStep(c, ip, i);
        assert p[j + 2..j + 6] == m[j + 2..j + 6];
        if p[j + 2..j + 6] == ip {
          return;
        }
        j := p[j + 1] as nat;
        i := i + 1;
      }
      FirstEnds(c, ip);
      j, e := 0, n;
    }

    /** p[1] = j, p[0] = p[j] */
    method PointHead(j: nat, ghost e: nat)
      requires Valid() && e < n && j == Slot(e)
      modifies this`cache, p
      ensures Valid() && cache == old(cache).(head := e)
    {
      SlotInside(p[..], n, e);
      ghost var m := p[..];
      p[1] := j;
      p[0] := p[j];
      cache := cache.(head := e);
      HeadMoves(m, p[..], n, old(cache), e);
    }

    /** arp_cache_add */
    method Add(ip: Str, mac: Str)
      requires Valid() && |ip| == 4 && |mac| == 6
      modifies this`cache, p
      ensures Valid() && cache == Insert(old(cache), ip, mac, broadcast)
    {
      if ip == ZERO_IP || ip == ALL_ONES {
        return;
      }
      hide Represents, Lookup, Slot;
      HeadFacts(p[..], n, cache);
      var found := Find(ip);
      LookupKeepsEntries(old(cache), ip, broadcast);
      if found != Null {
        return;
      }
      LookupMisses(old(cache), ip, broadcast);
      ReplaceLast(ip, mac);
    }

    /** The last entry gets the new address, and becomes the head. */
    method ReplaceLast(ip: Str, mac: Str)
      requires Valid() && |ip| == 4 && |mac| == 6
      modifies this`cache, p
      ensures Valid() && cache.head == Prev(old(cache).head, n)
      ensures cache.ips == old(cache).ips[cache.head := ip] && cache.macs == old(cache).macs[cache.head := mac]
    {
      hide Represents;
      ghost var c, m := cache, p[..];
      HeadFacts(m, n, c);
      ghost var last := Prev(c.head, n);
      EntryFacts(m, n, c, last);
      var at := p[0] as nat;
      forall k | 0 <= k < 4 {
        p[at + 2 + k] := ip[k];
      }
      forall k | 0 <= k < 6 {
        p[at + 6 + k] := mac[k];
      }
      cache := cache.(ips := cache.ips[last := ip], macs := cache.macs[last := mac]);
      EntryIsReplaced(m, p[..], n, c, last, ip, mac);
      PointHead(at, last);
    }
  }

  lemma LookupKeepsEntries(c: Cache, ip: Str, broadcast: Str)
    requires c.head < |c.ips|
    ensures var (r, d) := Lookup(c, ip, broadcast);
      d.ips == c.ips && d.macs == c.macs && d.head < |d.ips|
  {
  }

  lemma LookupMisses(c: Cache, ip: Str, broadcast: Str)
    requires c.head < |c.ips| && Lookup(c, ip, broadcast).0 == Null
    ensures Lookup(c, ip, broadcast).1 == c
  {
  }

  lemma LastSlots(n: nat)
    requires 1 <= n
    ensures 3 + (n - 1) * ENTRY == Slot(n - 1) + 1 && Slot(n - 1) + 1 < Slot(n)
  {
  }

  /** The byte pattern arp_cache_init leaves. */
  lemma InitialRing(m: Str, n: nat)
    requires Sized(m, n)
    requires m[2] as nat == m[0] as nat == Slot(n - 1) && m[1] == 2 && m[Slot(n - 1) + 1] == 2
    requires forall k :: 0 < k < n ==> m[Slot(k)] as nat == Slot(k - 1)
    requires forall k :: 0 <= k < n - 1 ==> m[Slot(k) + 1] as nat == Slot(k + 1)
    requires forall k :: 2 <= k < |m| && k % ENTRY != 2 && k % ENTRY != 3 ==> m[k] == 0
    ensures Represents(m, n, Zeroed(n))
  {
    hide IpAt, MacAt;
    assert Linked(m, n) && Headed(m, n, 0) by {
      assert forall k :: 0 <= k < n ==> Slot(k) + ENTRY <= |m|;
    }
    forall k | 0 <= k < n
      ensures Slot(k) + ENTRY <= |m| && IpAt(m, k) == ZERO_IP && MacAt(m, k) == ZERO_MAC
    {
      ZeroEntry(m, n, k);
    }
  }

  lemma ZeroEntry(m: Str, n: nat, k: nat)
    requires Sized(m, n) && k < n
    requires forall k :: 2 <= k < |m| && k % ENTRY != 2 && k % ENTRY != 3 ==> m[k] == 0
    ensures Slot(k) + ENTRY <= |m| && IpAt(m, k) == ZERO_IP && MacAt(m, k) == ZERO_MAC
  {
    SlotInside(m, n, k);
    assert Slot(k) % ENTRY == 2;
    var e := m[Slot(k)..Slot(k) + ENTRY];
    forall d | 2 <= d < ENTRY ensures e[d] == 0 {
      assert (Slot(k) + d) % ENTRY == (2 + d) % ENTRY;
    }
  }

  lemma HeadFacts(m: Str, n: nat, c: Cache)
    requires Represents(m, n, c)
    ensures |c.ips| == |c.macs| == n && c.head < n && |m| >= 2
    ensures m[1] as nat == Slot(c.head) && m[0] as nat == Slot(Prev(c.head, n))
    ensures Slot(c.head) == Slot(Onward(c.head, 0, n))
  {
  }

  lemma EntryFacts(m: Str, n: nat, c: Cache, e: nat)
    requires Represents(m, n, c) && e < n
    ensures 2 <= Slot(e) && Slot(e) + ENTRY <= |m| && Slot(e) < 0x100
    ensures |c.ips| == n && m[Slot(e) + 2..Slot(e) + 6] == c.ips[e]
    ensures m[Slot(e) + 1] as nat == Slot(Next(e, n))
  {
    SlotInside(m, n, e);
  }

  lemma FirstStep(c: Cache, ip: Str, k: nat)
    requires c.head < |c.ips| && k < |c.ips|
    ensures var e := Onward(c.head, k, |c.ips|);
      FirstFrom(c, ip, k) == if c.ips[e] == ip then e else FirstFrom(c, ip, k + 1)
    ensures k + 1 < |c.ips| ==> Next(Onward(c.head, k, |c.ips|), |c.ips|) == Onward(c.head, k + 1, |c.ips|)
  {
  }

  lemma FirstEnds(c: Cache, ip: Str)
    requires c.head < |c.ips|
    ensures FirstFrom(c, ip, |c.ips|) == |c.ips|
  {
  }

  lemma HeadMoves(m: Str, m': Str, n: nat, c: Cache, e: nat)
    requires Represents(m, n, c) && e < n && Slot(e) < |m| && Slot(e) < 0x100
    requires m' == m[1 := Slot(e)][0 := m[Slot(e)]]
    ensures Represents(m', n, c.(head := e))
  {
    forall i | 0 <= i < n ensures IpAt(m', i) == IpAt(m, i) && MacAt(m', i) == MacAt(m, i) {
    }
  }

  /** Entry `e` of `m` with new addresses, and nothing else changed. */
  ghost predicate Overwritten(m: Str, m': Str, e: nat, ip: Str, mac: Str) {
    |m'| == |m| && |ip| == 4 && |mac| == 6 && Slot(e) + ENTRY <= |m| &&
    forall k ::
      0 <= k < |m| ==> m'[k] == (if Slot(e) + 2 <= k < Slot(e) + 6 then ip[k - (Slot(e) + 2)]
                                 else if Slot(e) + 6 <= k < Slot(e) + 12 then mac[k - (Slot(e) + 6)] else m[k])
  }

  lemma EntryIsReplaced(m: Str, m': Str, n: nat, c: Cache, e: nat, ip: Str, mac: Str)
    requires Represents(m, n, c) && e < n && Overwritten(m, m', e, ip, mac)
    ensures Represents(m', n, c.(ips := c.ips[e := ip], macs := c.macs[e := mac]))
  {
    hide IpAt, MacAt, Overwritten, Linked, Headed, Slot;
    LinksStay(m, m', n, c.head, e, ip, mac);
    forall i | 0 <= i < n
      ensures Slot(i) + ENTRY <= |m'| && Slot(i) + ENTRY <= |m|
      ensures IpAt(m', i) == (if i == e then ip else IpAt(m, i))
      ensures MacAt(m', i) == (if i == e then mac else MacAt(m, i))
    {
      SlotInside(m, n, i);
      SameFields(m, m', e, ip, mac, i);
    }
  }

  lemma LinksStay(m: Str, m': Str, n: nat, h: nat, e: nat, ip: Str, mac: Str)
    requires Linked(m, n) && Headed(m, n, h) && Overwritten(m, m', e, ip, mac)
    ensures Linked(m', n) && Headed(m', n, h) && Sized(m', n) && Sized(m, n)
  {
    hide Overwritten, Slot, Prev, Next;
    SlotInside(m, n, h);
    SameLinks(m, m', e, ip, mac, h);
    forall i | 0 <= i < n
      ensures Slot(i) + ENTRY <= |m| && |m'| == |m|
      ensures m'[Slot(i)] == m[Slot(i)] && m'[Slot(i) + 1] == m[Slot(i) + 1]
    {
      SlotInside(m, n, i);
      SameLinks(m, m', e, ip, mac, i);
    }
  }

  lemma SameLinks(m: Str, m': Str, e: nat, ip: Str, mac: Str, i: nat)
    requires Overwritten(m, m', e, ip, mac) && Slot(i) + ENTRY <= |m|
    ensures |m'| == |m| && m'[0] == m[0] && m'[1] == m[1]
    ensures m'[Slot(i)] == m[Slot(i)] && m'[Slot(i) + 1] == m[Slot(i) + 1]
  {
    SlotsApart(i, e);
  }

  lemma SameFields(m: Str, m': Str, e: nat, ip: Str, mac: Str, i: nat)
    requires Overwritten(m, m', e, ip, mac) && Slot(i) + ENTRY <= |m|
    ensures |m'| == |m| && IpAt(m', i) == (if i == e then ip else IpAt(m, i))
    ensures MacAt(m', i) == (if i == e then mac else MacAt(m, i))
  {
    SlotsApart(i, e);
  }

  lemma SlotsApart(i: nat, e: nat)
    ensures i < e ==> Slot(i) + ENTRY <= Slot(e)
    ensures e < i ==> Slot(e) + ENTRY <= Slot(i)
  {
  }

  // ----- what the cache promises -----

  datatype Op = Find(ip: Str) | Add(ip: Str, mac: Str)

  function Apply(c: Cache, op: Op, broadcast: Str): (r: Cache)
    requires Sound(c)
    ensures Sound(r) && |r.ips| == |c.ips|
  {
    match op
    case Find(ip) => Lookup(c, ip, broadcast).1
    case Add(ip, mac) => Insert(c, ip, mac, broadcast)
  }

  function Run(c: Cache, ops: seq<Op>, broadcast: Str): (r: Cache)
    requires Sound(c)
    ensures Sound(r) && |r.ips| == |c.ips|
    decreases |ops|
  {
    if ops == [] then c else Run(Apply(c, ops[0], broadcast), ops[1..], broadcast)
  }

  predicate Special(ip: Str, broadcast: Str) { ip == ZERO_IP || ip == ALL_ONES || ip == broadcast }

  /** The walk along the links passes every entry. */
  lemma {:induction false} WalkSeesAll(c: Cache, ip: Str, k: nat, d: nat)
    requires Sound(c) && k <= d < |c.ips| && c.ips[Onward(c.head, d, |c.ips|)] == ip
    ensures FirstFrom(c, ip, k) < |c.ips|
    decreases d - k
  {
    if k < d && c.ips[Onward(c.head, k, |c.ips|)] != ip {
      WalkSeesAll(c, ip, k + 1, d);
    }
  }

  /** How many links on from the head an entry is. */
  function Distance(h: nat, i: nat, n: nat): (d: nat)
    requires h < n && i < n
    ensures d < n && Onward(h, d, n) == i
  {
    if h <= i then i - h else i + n - h
  }

  /** An ordinary address is found exactly when some entry holds it, and then its own entry is returned. */
  lemma FoundIffPresent(c: Cache, ip: Str, broadcast: Str)
    requires Sound(c) && !Special(ip, broadcast)
    ensures ip in c.ips <==> Lookup(c, ip, broadcast).0 != Null
    ensures Lookup(c, ip, broadcast).0 != Null ==>
      (var (r, d) := Lookup(c, ip, broadcast);
       c.ips[d.head] == ip && r == EntryMac(Slot(d.head) + 6) && d == c.(head := d.head))
  {
    if ip in c.ips {
      var i :| 0 <= i < |c.ips| && c.ips[i] == ip;
      WalkSeesAll(c, ip, 0, Distance(c.head, i, |c.ips|));
    }
  }

  /** The zero address is never found; the two broadcast addresses always are; none of them changes the cache. */
  lemma SpecialLookups(c: Cache, broadcast: Str)
    requires Sound(c)
    ensures Lookup(c, [0, 0, 0, 0], broadcast) == (Null, c)
    ensures Lookup(c, [0xff, 0xff, 0xff, 0xff], broadcast) == (BroadcastMac, c)
    ensures broadcast != [0, 0, 0, 0] ==> Lookup(c, broadcast, broadcast) == (BroadcastMac, c)
  {
    assert [0xff, 0xff, 0xff, 0xff][0] != ZERO_IP[0];
  }

  lemma ApplyKeepsUnique(c: Cache, op: Op, broadcast: Str)
    requires Sound(c) && Unique(c)
    ensures Unique(Apply(c, op, broadcast))
  {
    if op.Add? && !Special(op.ip, broadcast) {
      FoundIffPresent(c, op.ip, broadcast);
    }
  }

  lemma {:induction false} RunKeepsUnique(c: Cache, ops: seq<Op>, broadcast: Str)
    requires Sound(c) && Unique(c)
    ensures Unique(Run(c, ops, broadcast))
    decreases |ops|
  {
    if ops != [] {
      ApplyKeepsUnique(c, ops[0], broadcast);
      RunKeepsUnique(Apply(c, ops[0], broadcast), ops[1..], broadcast);
    }
  }

  /** From a zeroed cache, no sequence of lookups and additions makes two entries share an address. */
  lemma AddressesStayUnique(n: nat, ops: seq<Op>, broadcast: Str)
    requires 0 < n
    ensures Unique(Run(Zeroed(n), ops, broadcast))
  {
    RunKeepsUnique(Zeroed(n), ops, broadcast);
  }

  /** The cache knows this hardware address for this IP address. */
  ghost predicate Knows(c: Cache, ip: Str, mac: Str)
    requires Sound(c)
  {
    exists i :: 0 <= i < |c.ips| && c.ips[i] == ip && c.macs[i] == mac
  }

  /** A lookup forgets and learns nothing. */
  lemma LookupKeepsKnowledge(c: Cache, ip: Str, broadcast: Str, other: Str, mac: Str)
    requires Sound(c)
    ensures Knows(Apply(c, Find(ip), broadcast), other, mac) <==> Knows(c, other, mac)
  {
    var d := Apply(c, Find(ip), broadcast);
    assert d.ips == c.ips && d.macs == c.macs;
  }

  /**
   * Adding an address that is present (or special) changes no binding, not even its own; adding a new one
   * binds it and forgets exactly the address of the last entry.
   */
  lemma InsertKnowledge(c: Cache, ip: Str, mac: Str, broadcast: Str, other: Str, otherMac: Str)
    requires Sound(c) && Unique(c) && other != ZERO_IP
    ensures var evicted := c.ips[Prev(c.head, |c.ips|)];
      Knows(Insert(c, ip, mac, broadcast), other, otherMac) <==>
      if Special(ip, broadcast) || ip in c.ips then Knows(c, other, otherMac)
      else if other == ip then otherMac == mac
      else other != evicted && Knows(c, other, otherMac)
  {
    if Special(ip, broadcast) || ip in c.ips {
      if !Special(ip, broadcast) {
        FoundIffPresent(c, ip, broadcast);
      }
      var d := Insert(c, ip, mac, broadcast);
      assert d.ips == c.ips && d.macs == c.macs;
    } else {
      FoundIffPresent(c, ip, broadcast);
      NewEntryKnowledge(c, ip, mac, broadcast, other, otherMac);
    }
  }

  lemma NewEntryKnowledge(c: Cache, ip: Str, mac: Str, broadcast: Str, other: Str, otherMac: Str)
    requires Sound(c) && Unique(c) && other != ZERO_IP && ip !in c.ips && !Special(ip, broadcast)
    requires Lookup(c, ip, broadcast) == (Null, c)
    ensures Knows(Insert(c, ip, mac, broadcast), other, otherMac) <==>
      if other == ip then otherMac == mac
      else other != c.ips[Prev(c.head, |c.ips|)] && Knows(c, other, otherMac)
  {
    var d, last := Insert(c, ip, mac, broadcast), Prev(c.head, |c.ips|);
    assert d.ips[last] == ip && d.macs[last] == mac;
    if other != ip && other != c.ips[last] && Knows(c, other, otherMac) {
      var i :| 0 <= i < |c.ips| && c.ips[i] == other && c.macs[i] == otherMac;
      assert d.ips[i] == other && d.macs[i] == otherMac;
    }
    if Knows(d, other, otherMac) {
      var i :| 0 <= i < |d.ips| && d.ips[i] == other && d.macs[i] == otherMac;
      assert i != last ==> c.ips[i] == other && c.macs[i] == otherMac;
    }
  }

  // ----- eviction -----

  /** No operation of the run finds an entry: lookups miss or are special, additions bring new addresses. */
  predicate Quiet(c: Cache, ops: seq<Op>, broadcast: Str)
    requires Sound(c)
    decreases |ops|
  {
    ops == [] ||
    ((Special(ops[0].ip, broadcast) || ops[0].ip !in c.ips) &&
     Quiet(Apply(c, ops[0], broadcast), ops[1..], broadcast))
  }

  /** How many of the operations add an ordinary address. */
  function Additions(ops: seq<Op>, broadcast: Str): nat {
    if ops == [] then 0
    else (if ops[0].Add? && !Special(ops[0].ip, broadcast) then 1 else 0) + Additions(ops[1..], broadcast)
  }

  /** `k` additions after entry `e` became the head: the head is `k` links back, and the entry is as it was. */
  lemma {:induction false} QuietRun(c: Cache, ops: seq<Op>, broadcast: Str, e: nat, k: nat)
    requires Sound(c) && Quiet(c, ops, broadcast) && e < |c.ips| && k + Additions(ops, broadcast) < |c.ips|
    requires Onward(c.head, k, |c.ips|) == e
    ensures var r := Run(c, ops, broadcast);
      r.ips[e] == c.ips[e] && r.macs[e] == c.macs[e] && Onward(r.head, k + Additions(ops, broadcast), |c.ips|) == e
    decreases |ops|
  {
    if ops != [] {
      var d := Apply(c, ops[0], broadcast);
      if !Special(ops[0].ip, broadcast) {
        FoundIffPresent(c, ops[0].ip, broadcast);
      }
      if ops[0].Add? && !Special(ops[0].ip, broadcast) {
        QuietRun(d, ops[1..], broadcast, e, k + 1);
      } else {
        QuietRun(d, ops[1..], broadcast, e, k);
      }
    }
  }

  /** An entry just found survives the next N - 1 additions of new addresses, if nothing else is found in between. */
  lemma FoundEntrySurvives(c: Cache, ip: Str, ops: seq<Op>, broadcast: Str)
    requires Sound(c) && !Special(ip, broadcast) && ip in c.ips
    requires Quiet(Apply(c, Find(ip), broadcast), ops, broadcast) && Additions(ops, broadcast) < |c.ips|
    ensures var d := Apply(c, Find(ip), broadcast);
      Knows(Run(d, ops, broadcast), ip, c.macs[d.head]) && c.ips[d.head] == ip
  {
    FoundIffPresent(c, ip, broadcast);
    var d := Apply(c, Find(ip), broadcast);
    QuietRun(d, ops, broadcast, d.head, 0);
  }

  /** The bound is exact: one addition more evicts it. */
  lemma OneMoreEvictsIt(c: Cache, ip: Str, ops: seq<Op>, newIp: Str, mac: Str, broadcast: Str)
    requires Sound(c) && Unique(c) && !Special(ip, broadcast) && ip in c.ips
    requires var d := Apply(c, Find(ip), broadcast);
      Quiet(d, ops, broadcast) && Additions(ops, broadcast) == |c.ips| - 1 && newIp !in Run(d, ops, broadcast).ips
    requires !Special(newIp, broadcast) && newIp != ip
    ensures var r := Run(Apply(c, Find(ip), broadcast), ops, broadcast);
      ip in r.ips && ip !in Insert(r, newIp, mac, broadcast).ips
  {
    FoundIffPresent(c, ip, broadcast);
    var d := Apply(c, Find(ip), broadcast);
    QuietRun(d, ops, broadcast, d.head, 0);
    var r := Run(d, ops, broadcast);
    ApplyKeepsUnique(c, Find(ip), broadcast);
    RunKeepsUnique(d, ops, broadcast);
    FoundIffPresent(r, newIp, broadcast);
    assert r.ips[d.head] == ip && Prev(r.head, |r.ips|) == d.head;
  }

  // ----- the ring is not a least-recently-used list -----

  /** The entries in link order. */
  function Order(c: Cache): (r: seq<nat>)
    requires Sound(c)
    ensures |r| == |c.ips|
  {
    seq(|c.ips|, k requires 0 <= k < |c.ips| => Onward(c.head, k, |c.ips|))
  }

  /** The list with its `k`-th element moved to the front. */
  function MovedToFront(o: seq<nat>, k: nat): seq<nat>
    requires k < |o|
  {
    [o[k]] + o[..k] + o[k + 1..]
  }

  /** A hit rotates the order; that is a move to the front only for the first entry and the last. */
  lemma HitMovesToFrontIff(c: Cache, ip: Str, broadcast: Str, k: nat)
    requires Sound(c) && !Special(ip, broadcast) && k < |c.ips|
    requires Lookup(c, ip, broadcast).0 != Null && Lookup(c, ip, broadcast).1.head == Order(c)[k]
    ensures Order(Apply(c, Find(ip), broadcast)) == Order(c)[k..] + Order(c)[..k]
    ensures Order(Apply(c, Find(ip), broadcast)) == MovedToFront(Order(c), k) <==> k == 0 || k == |c.ips| - 1
  {
    var o := Order(c);
    assert Order(Apply(c, Find(ip), broadcast)) == o[k..] + o[..k];
    if 0 < k < |c.ips| - 1 {
      assert (o[k..] + o[..k])[1] == o[k + 1] && MovedToFront(o, k)[1] == o[0];
    } else if k == |c.ips| - 1 {
      assert o[k..] == [o[k]] && o[k + 1..] == [];
    }
  }

  /** A new address takes the last place and moves to the front. */
  lemma AdditionMovesLastToFront(c: Cache, ip: Str, mac: Str, broadcast: Str)
    requires Sound(c) && !Special(ip, broadcast) && ip !in c.ips
    ensures Order(Insert(c, ip, mac, broadcast)) == MovedToFront(Order(c), |c.ips| - 1)
    ensures Insert(c, ip, mac, broadcast).ips == c.ips[Order(c)[|c.ips| - 1] := ip]
  {
    FoundIffPresent(c, ip, broadcast);
  }

  function Host(k: Byte): Str { [10, 0, 0, k] }

  /** Of four entries, the third and then the first are looked up; two additions evict the third but keep the second. */
  lemma RecentlyUsedIsEvicted(mac: Str)
    ensures var c := Cache(0, [Host(1), Host(2), Host(3), Host(4)], [mac, mac, mac, mac]);
      Run(c, [Find(Host(3)), Find(Host(1)), Add(Host(5), mac), Add(Host(6), mac)], ALL_ONES).ips
      == [Host(1), Host(2), Host(6), Host(5)]
  {
    var c := Cache(0, [Host(1), Host(2), Host(3), Host(4)], [mac, mac, mac, mac]);
    Distinct();
    hide Host;
    var c1 := Cache(2, c.ips, c.macs);
    assert Lookup(c, Host(3), ALL_ONES).1 == c1 by { SmallWalk(c, Host(3)); }
    assert Lookup(c1, Host(1), ALL_ONES).1 == c by { SmallWalk(c1, Host(1)); }
    var c2 := Cache(3, [Host(1), Host(2), Host(3), Host(5)], c.macs);
    assert Insert(c, Host(5), mac, ALL_ONES) == c2 by { SmallWalk(c, Host(5)); }
    var c3 := Cache(2, [Host(1), Host(2), Host(6), Host(5)], c.macs);
    assert Insert(c2, Host(6), mac, ALL_ONES) == c3 by { SmallWalk(c2, Host(6)); }
    FourSteps(c, Find(Host(3)), Find(Host(1)), Add(Host(5), mac), Add(Host(6), mac), ALL_ONES);
  }

  lemma FourSteps(c: Cache, o1: Op, o2: Op, o3: Op, o4: Op, broadcast: Str)
    requires Sound(c)
    ensures Run(c, [o1, o2, o3, o4], broadcast)
      == Apply(Apply(Apply(Apply(c, o1, broadcast), o2, broadcast), o3, broadcast), o4, broadcast)
  {
    hide Apply, Run, Sound;
    var d := Apply(c, o1, broadcast);
    var e := Apply(d, o2, broadcast);
    var f := Apply(e, o3, broadcast);
    OneStep(c, o1, [o2, o3, o4], broadcast);
    OneStep(d, o2, [o3, o4], broadcast);
    OneStep(e, o3, [o4], broadcast);
    OneStep(f, o4, [], broadcast);
    NoStep(Apply(f, o4, broadcast), broadcast);
    assert [o1, o2, o3, o4] == [o1] + [o2, o3, o4] && [o2, o3, o4] == [o2] + [o3, o4];
    assert [o3, o4] == [o3] + [o4] && [o4] == [o4] + [];
  }

  lemma OneStep(c: Cache, o: Op, ops: seq<Op>, broadcast: Str)
    requires Sound(c)
    ensures Run(c, [o] + ops, broadcast) == Run(Apply(c, o, broadcast), ops, broadcast)
  {
    hide Apply, Sound;
    assert ([o] + ops)[0] == o && ([o] + ops)[1..] == ops;
  }

  lemma NoStep(c: Cache, broadcast: Str)
    requires Sound(c)
    ensures Run(c, [], broadcast) == c
  {
  }

  lemma SmallWalk(c: Cache, ip: Str)
    requires Sound(c) && |c.ips| == 4
    ensures FirstFrom(c, ip, 0) ==
      var h := c.head;
      if c.ips[h] == ip then h
      else if c.ips[Onward(h, 1, 4)] == ip then Onward(h, 1, 4)
      else if c.ips[Onward(h, 2, 4)] == ip then Onward(h, 2, 4)
      else if c.ips[Onward(h, 3, 4)] == ip then Onward(h, 3, 4) else 4
  {
    assert FirstFrom(c, ip, 4) == 4;
    assert FirstFrom(c, ip, 3) == if c.ips[Onward(c.head, 3, 4)] == ip then Onward(c.head, 3, 4) else 4;
    assert FirstFrom(c, ip, 2) ==
      if c.ips[Onward(c.head, 2, 4)] == ip then Onward(c.head, 2, 4) else FirstFrom(c, ip, 3);
  }

  lemma Distinct()
    ensures forall i: Byte, j: Byte :: i != j ==> Host(i) != Host(j)
    ensures forall i: Byte :: !Special(Host(i), ALL_ONES)
  {
    forall i: Byte, j: Byte | i != j ensures Host(i) != Host(j) {
      assert Host(i)[3] != Host(j)[3];
    }
    forall i: Byte ensures !Special(Host(i), ALL_ONES) {
      assert Host(i)[0] == 10;
    }
  }
}
