/** The eight-entry ARP cache of code/src/net.c and what it remembers of everything ever learned. */
module ArpCache {
  import opened Bytes

  type Mac = m: seq<u8> | |m| == 6 witness [0, 0, 0, 0, 0, 0]

  const CACHE_SIZE: nat := 8

  datatype ArpEntry = ArpEntry(ip: u32, mac: Mac, valid: bool)

  type Cache = c: seq<ArpEntry> | |c| == CACHE_SIZE
    witness seq(CACHE_SIZE, _ => ArpEntry(0, [0, 0, 0, 0, 0, 0], false))

  /** First slot at or after `i` that is free or already holds `ip`; slot 0 when there is none. */
  function InsertSlot(c: Cache, ip: u32, i: nat): (slot: nat)
    requires i <= CACHE_SIZE
    ensures slot < CACHE_SIZE
    decreases CACHE_SIZE - i
  {
    if i == CACHE_SIZE then 0
    else if !c[i].valid || c[i].ip == ip then i
    else InsertSlot(c, ip, i + 1)
  }

  function Insert(c: Cache, ip: u32, mac: Mac): Cache {
    c[InsertSlot(c, ip, 0) := ArpEntry(ip, mac, true)]
  }

  function LookupFrom(c: Cache, ip: u32, i: nat): Option<Mac>
    requires i <= CACHE_SIZE
    decreases CACHE_SIZE - i
  {
    if i == CACHE_SIZE then None
    else if c[i].valid && c[i].ip == ip then Some(c[i].mac)
    else LookupFrom(c, ip, i + 1)
  }

  function Lookup(c: Cache, ip: u32): Option<Mac> {
    LookupFrom(c, ip, 0)
  }

  /** `arp_cache_insert` */
  method ArpCacheInsert(cache: array<ArpEntry>, ip: u32, mac: Mac)
    requires cache.Length == CACHE_SIZE
    modifies cache
    ensures cache[..] == Insert(old(cache[..]), ip, mac)
  {
    for i := 0 to CACHE_SIZE
      invariant cache[..] == old(cache[..])
      invariant InsertSlot(cache[..], ip, 0) == InsertSlot(cache[..], ip, i)
    {
      if !cache[i].valid || cache[i].ip == ip {
        cache[i] := ArpEntry(ip, mac, true);
        return;
      }
    }
    cache[0] := ArpEntry(ip, mac, true);
  }

  /** `arp_lookup` */
  method ArpLookup(cache: array<ArpEntry>, ip: u32) returns (found: Option<Mac>)
    requires cache.Length == CACHE_SIZE
    ensures found == Lookup(cache[..], ip)
  {
    for i := 0 to CACHE_SIZE
      invariant Lookup(cache[..], ip) == LookupFrom(cache[..], ip, i)
    {
      if cache[i].valid && cache[i].ip == ip {
        return Some(cache[i].mac);
      }
    }
    return None;
  }

  // ---- The cache against the full learning history --------------------------------------------

  datatype Binding = Binding(ip: u32, mac: Mac)

  ghost predicate Empty(c: Cache) {
    forall i :: 0 <= i < CACHE_SIZE ==> !c[i].valid
  }

  /** The cache after learning a history of bindings, oldest first, from the cache `c0`. */
  function Learn(c0: Cache, hist: seq<Binding>): Cache {
    if hist == [] then c0
    else
      var b := hist[|hist| - 1];
      Insert(Learn(c0, hist[..|hist| - 1]), b.ip, b.mac)
  }

  /** The MAC learned last for `ip`. */
  function LastMac(hist: seq<Binding>, ip: u32): Option<Mac> {
    if hist == [] then None
    else if hist[|hist| - 1].ip == ip then Some(hist[|hist| - 1].mac)
    else LastMac(hist[..|hist| - 1], ip)
  }

  /** The distinct addresses of a history, in order of first appearance. */
  function Known(hist: seq<Binding>): seq<u32> {
    if hist == [] then []
    else
      var k := Known(hist[..|hist| - 1]);
      if hist[|hist| - 1].ip in k then k else k + [hist[|hist| - 1].ip]
  }

  /** Addresses two to eight in order of first appearance: the ones that keep a slot for good. */
  function Resident(hist: seq<Binding>): seq<u32> {
    var k := Known(hist);
    if |k| == 0 then [] else if |k| <= CACHE_SIZE then k[1..] else k[1..CACHE_SIZE]
  }

  /** The address learned last among those without a slot of their own: the tenant of slot 0. */
  function Tenant(hist: seq<Binding>): u32
    requires hist != []
  {
    var last := hist[|hist| - 1].ip;
    if |hist| == 1 || last !in Resident(hist) then last else Tenant(hist[..|hist| - 1])
  }

  /** The addresses held by the slots, in slot order. */
  function Slots(hist: seq<Binding>): seq<u32> {
    if hist == [] then [] else [Tenant(hist)] + Resident(hist)
  }

  ghost predicate Distinct(s: seq<u32>) {
    forall i, j :: 0 <= i < j < |s| ==> s[i] != s[j]
  }

  /** `c` holds exactly the addresses `ips` in its first slots, each with the MAC `hist` last gave it. */
  ghost predicate Holds(c: Cache, ips: seq<u32>, hist: seq<Binding>) {
    && |ips| <= CACHE_SIZE
    && (forall i :: 0 <= i < |ips| ==> c[i].valid && c[i].ip == ips[i] && LastMac(hist, ips[i]) == Some(c[i].mac))
    && (forall i :: |ips| <= i < CACHE_SIZE ==> !c[i].valid)
  }

  lemma {:induction false} LastMacKnown(hist: seq<Binding>, ip: u32)
    ensures LastMac(hist, ip).Some? <==> ip in Known(hist)
  {
    if hist != [] {
      LastMacKnown(hist[..|hist| - 1], ip);
    }
  }

  lemma {:induction false} KnownDistinct(hist: seq<Binding>)
    ensures Distinct(Known(hist))
    ensures hist != [] ==> hist[|hist| - 1].ip in Known(hist)
  {
    if hist != [] {
      KnownDistinct(hist[..|hist| - 1]);
    }
  }

  /** The tenant is known, is no resident, and is the very first address while at most eight are known. */
  lemma {:induction false} TenantFacts(hist: seq<Binding>)
    requires hist != []
    ensures Known(hist) != [] && Tenant(hist) in Known(hist) && Tenant(hist) !in Resident(hist)
    ensures |Known(hist)| <= CACHE_SIZE ==> Tenant(hist) == Known(hist)[0]
  {
    KnownDistinct(hist);
    var h, ip, k := hist[..|hist| - 1], hist[|hist| - 1].ip, Known(hist);
    if ip in Resident(hist) && |hist| > 1 {
      TenantFacts(h);
      assert forall x :: x in Resident(hist) ==> x == ip || x in Resident(h);
    } else if |hist| > 1 && |k| <= CACHE_SIZE {
      assert ip in k && ip !in k[1..];
    }
  }

  lemma SlotFacts(hist: seq<Binding>)
    requires hist != []
    ensures Distinct(Slots(hist)) && forall ip :: ip in Slots(hist) ==> ip in Known(hist)
    ensures |Known(hist)| <= CACHE_SIZE ==> Slots(hist) == Known(hist)
    ensures |Known(hist)| > CACHE_SIZE ==> |Slots(hist)| == CACHE_SIZE
  {
    KnownDistinct(hist);
    TenantFacts(hist);
    var k, t, r := Known(hist), Tenant(hist), Resident(hist);
    SliceDistinct(k, if |k| <= CACHE_SIZE then |k| else CACHE_SIZE);
    ConsDistinct(t, r);
    if |k| <= CACHE_SIZE { assert [k[0]] + k[1..] == k; }
  }

  lemma SliceDistinct(k: seq<u32>, n: nat)
    requires Distinct(k) && 1 <= n <= |k|
    ensures Distinct(k[1..n]) && forall x :: x in k[1..n] ==> x in k
  {
  }

  lemma ConsDistinct(x: u32, s: seq<u32>)
    requires Distinct(s) && x !in s
    ensures Distinct([x] + s) && forall y :: y in [x] + s ==> y == x || y in s
  {
  }

  lemma Newest(hist: seq<Binding>, b: Binding, hist': seq<Binding>)
    requires hist' == hist + [b]
    ensures Known(hist') == if b.ip in Known(hist) then Known(hist) else Known(hist) + [b.ip]
    ensures Tenant(hist') == if hist == [] || b.ip !in Resident(hist') then b.ip else Tenant(hist)
  {
    assert hist'[..|hist|] == hist;
  }

  lemma Appended(k: seq<u32>, x: u32, n: nat)
    requires 1 <= n <= |k|
    ensures (k + [x])[1..n] == k[1..n] && (k + [x])[1..] == k[1..] + [x]
  {
  }

  lemma SlotKept(hist: seq<Binding>, b: Binding, hist': seq<Binding>)
    requires hist != [] && b.ip in Slots(hist) && hist' == hist + [b]
    ensures Slots(hist') == Slots(hist)
  {
    Newest(hist, b, hist');
    SlotFacts(hist);
    TenantFacts(hist);
    assert Resident(hist') == Resident(hist);
  }

  lemma SlotCount(hist: seq<Binding>)
    ensures |Slots(hist)| == if |Known(hist)| <= CACHE_SIZE then |Known(hist)| else CACHE_SIZE
  {
    if hist != [] { TenantFacts(hist); }
  }

  lemma NotInCons(x: u32, head: u32, tail: seq<u32>)
    ensures x !in [head] + tail <==> x != head && x !in tail
    ensures ([head] + tail)[0 := x] == [x] + tail
  {
  }

  lemma SlotsAreKnown(hist: seq<Binding>)
    requires |Slots(hist)| < CACHE_SIZE
    ensures Slots(hist) == Known(hist)
  {
    SlotCount(hist);
    if hist != [] { SlotFacts(hist); }
  }

  lemma ConsAppend(head: u32, tail: seq<u32>, x: u32)
    ensures [head] + (tail + [x]) == [head] + tail + [x]
  {
  }

  lemma SlotTaken(hist: seq<Binding>, b: Binding, hist': seq<Binding>)
    requires hist != [] && b.ip !in Slots(hist) && |Slots(hist)| < CACHE_SIZE && hist' == hist + [b]
    ensures Slots(hist') == Slots(hist) + [b.ip]
  {
    Newest(hist, b, hist');
    SlotsAreKnown(hist);
    ResidentAdded(hist, b, hist');
    ConsAppend(Tenant(hist), Resident(hist), b.ip);
  }

  lemma ResidentAdded(hist: seq<Binding>, b: Binding, hist': seq<Binding>)
    requires hist != [] && b.ip !in Known(hist) && |Known(hist)| < CACHE_SIZE && hist' == hist + [b]
    ensures Resident(hist') == Resident(hist) + [b.ip] && b.ip in Resident(hist')
  {
    Newest(hist, b, hist');
    KnownDistinct(hist);
    Appended(Known(hist), b.ip, |Known(hist)|);
    assert (Resident(hist) + [b.ip])[|Resident(hist)|] == b.ip;
  }

  lemma ResidentsKept(hist: seq<Binding>, b: Binding, hist': seq<Binding>)
    requires |Known(hist)| >= CACHE_SIZE && hist' == hist + [b]
    ensures Resident(hist') == Resident(hist)
  {
    Newest(hist, b, hist');
    Appended(Known(hist), b.ip, CACHE_SIZE);
  }

  lemma TenantEvicted(hist: seq<Binding>, b: Binding, hist': seq<Binding>)
    requires hist != [] && b.ip !in Slots(hist) && |Slots(hist)| >= CACHE_SIZE && hist' == hist + [b]
    ensures Slots(hist') == Slots(hist)[0 := b.ip]
  {
    Newest(hist, b, hist');
    SlotCount(hist);
    ResidentsKept(hist, b, hist');
    NotInCons(b.ip, Tenant(hist), Resident(hist));
  }

  /** How one more binding moves the slots: a slot that has the address keeps it, a free slot takes a new
      address, and with all slots taken the newcomer becomes the tenant of slot 0. */
  lemma SlotsStep(hist: seq<Binding>, b: Binding)
    ensures Slots(hist + [b]) ==
            if b.ip in Slots(hist) then Slots(hist)
            else if |Slots(hist)| < CACHE_SIZE then Slots(hist) + [b.ip]
            else Slots(hist)[0 := b.ip]
  {
    var hist' := hist + [b];
    if hist == [] {
      Newest(hist, b, hist');
    } else if b.ip in Slots(hist) {
      SlotKept(hist, b, hist');
    } else if |Slots(hist)| < CACHE_SIZE {
      SlotTaken(hist, b, hist');
    } else {
      TenantEvicted(hist, b, hist');
    }
  }

  lemma {:induction false} InsertSlotFirst(c: Cache, ip: u32, i: nat, slot: nat)
    requires i <= slot < CACHE_SIZE
    requires !c[slot].valid || c[slot].ip == ip
    requires forall j :: i <= j < slot ==> c[j].valid && c[j].ip != ip
    ensures InsertSlot(c, ip, i) == slot
    decreases slot - i
  {
    if i < slot {
      InsertSlotFirst(c, ip, i + 1, slot);
    }
  }

  lemma {:induction false} InsertSlotNone(c: Cache, ip: u32, i: nat)
    requires i <= CACHE_SIZE && forall j :: i <= j < CACHE_SIZE ==> c[j].valid && c[j].ip != ip
    ensures InsertSlot(c, ip, i) == 0
    decreases CACHE_SIZE - i
  {
    if i < CACHE_SIZE {
      InsertSlotNone(c, ip, i + 1);
    }
  }

  lemma HoldsStep(c: Cache, ips: seq<u32>, hist: seq<Binding>, b: Binding)
    requires Holds(c, ips, hist) && Distinct(ips)
    ensures Holds(Insert(c, b.ip, b.mac),
                  if b.ip in ips then ips else if |ips| < CACHE_SIZE then ips + [b.ip] else ips[0 := b.ip],
                  hist + [b])
  {
    assert (hist + [b])[..|hist|] == hist;
    if b.ip in ips {
      var j :| 0 <= j < |ips| && ips[j] == b.ip;
      InsertSlotFirst(c, b.ip, 0, j);
    } else if |ips| < CACHE_SIZE {
      InsertSlotFirst(c, b.ip, 0, |ips|);
    } else {
      InsertSlotNone(c, b.ip, 0);
    }
  }

  lemma {:induction false} LearnHolds(c0: Cache, hist: seq<Binding>)
    requires Empty(c0)
    ensures Holds(Learn(c0, hist), Slots(hist), hist) && Distinct(Slots(hist))
  {
    if hist != [] {
      var h, b := hist[..|hist| - 1], hist[|hist| - 1];
      assert hist == h + [b];
      LearnHolds(c0, h);
      HoldsStep(Learn(c0, h), Slots(h), h, b);
      SlotsStep(h, b);
      SlotFacts(hist);
    }
  }

  lemma {:induction false} LookupHolds(c: Cache, ips: seq<u32>, hist: seq<Binding>, ip: u32, i: nat)
    requires Holds(c, ips, hist) && i <= CACHE_SIZE
    requires forall j :: 0 <= j < i && j < |ips| ==> ips[j] != ip
    ensures LookupFrom(c, ip, i) == if ip in ips then LastMac(hist, ip) else None
    decreases CACHE_SIZE - i
  {
    if i < CACHE_SIZE && !(c[i].valid && c[i].ip == ip) {
      LookupHolds(c, ips, hist, ip, i + 1);
    }
  }

  /** What the cache answers after any history: the last MAC learned for the address if the address is a
      resident or the tenant, and nothing otherwise. */
  lemma LookupExact(c0: Cache, hist: seq<Binding>, ip: u32)
    requires Empty(c0)
    ensures Lookup(Learn(c0, hist), ip) == if ip in Slots(hist) then LastMac(hist, ip) else None
  {
    LearnHolds(c0, hist);
    LookupHolds(Learn(c0, hist), Slots(hist), hist, ip, 0);
  }

  /** Up to eight distinct addresses the cache is the full history map. */
  lemma FewAddressesNothingForgotten(c0: Cache, hist: seq<Binding>, ip: u32)
    requires Empty(c0) && |Known(hist)| <= 8
    ensures Lookup(Learn(c0, hist), ip) == LastMac(hist, ip)
  {
    LookupExact(c0, hist, ip);
    LastMacKnown(hist, ip);
    if hist != [] {
      SlotFacts(hist);
    }
  }

  /** The cache is the full history map exactly up to eight distinct addresses: with more, the first or the
      ninth of them is neither a resident nor the tenant. */
  lemma NothingForgottenIff(c0: Cache, hist: seq<Binding>)
    requires Empty(c0)
    ensures (forall ip :: Lookup(Learn(c0, hist), ip) == LastMac(hist, ip)) <==> |Known(hist)| <= 8
  {
    if |Known(hist)| <= CACHE_SIZE {
      forall ip
        ensures Lookup(Learn(c0, hist), ip) == LastMac(hist, ip)
      {
        FewAddressesNothingForgotten(c0, hist, ip);
      }
    } else {
      var ip := OneForgotten(hist);
      LookupExact(c0, hist, ip);
    }
  }

  lemma OneForgotten(hist: seq<Binding>) returns (ip: u32)
    requires |Known(hist)| > CACHE_SIZE
    ensures ip !in Slots(hist) && LastMac(hist, ip).Some?
  {
    var k := Known(hist);
    KnownDistinct(hist);
    ip := if k[0] == Tenant(hist) then k[CACHE_SIZE] else k[0];
    assert forall x :: x in Resident(hist) ==> exists i :: 1 <= i < CACHE_SIZE && k[i] == x;
    LastMacKnown(hist, ip);
  }

  /** `n` addresses learned one after the other. */
  function Counting(n: nat, mac: Mac): seq<Binding>
    requires n < 0x1_0000_0000
  {
    seq(n, i requires 0 <= i < n => Binding(i, mac))
  }

  lemma {:induction false} CountingKnown(n: nat, mac: Mac)
    requires n < 0x1_0000_0000
    ensures Known(Counting(n, mac)) == seq(n, i => i)
  {
    if n > 0 {
      CountingKnown(n - 1, mac);
      assert Counting(n, mac)[..n - 1] == Counting(n - 1, mac);
    }
  }

  /** After nine addresses the first one misses although it was learned. */
  lemma NinthForgetsFirst(c0: Cache, mac: Mac)
    requires Empty(c0)
    ensures Lookup(Learn(c0, Counting(9, mac)), 0) == None && LastMac(Counting(9, mac), 0) == Some(mac)
  {
    var hist := Counting(9, mac);
    CountingKnown(9, mac);
    assert Known(hist)[0] == 0 && Resident(hist) == Known(hist)[1..CACHE_SIZE];
    assert hist[8] == Binding(8, mac) && Tenant(hist) == 8;
    LookupExact(c0, hist, 0);
    FirstLearned(9, mac);
  }

  lemma {:induction false} FirstLearned(n: nat, mac: Mac)
    requires 1 <= n < 0x1_0000_0000
    ensures LastMac(Counting(n, mac), 0) == Some(mac)
  {
    if n > 1 {
      FirstLearned(n - 1, mac);
      assert Counting(n, mac)[..n - 1] == Counting(n - 1, mac);
    }
  }

  /** The latest binding always hits, in any cache at all. */
  lemma LatestBindingHits(c: Cache, ip: u32, mac: Mac)
    ensures Lookup(Insert(c, ip, mac), ip) == Some(mac)
  {
    var d, slot := Insert(c, ip, mac), InsertSlot(c, ip, 0);
    InsertSlotIsFirst(c, ip, 0);
    LookupFirst(d, ip, 0, slot);
  }

  lemma {:induction false} InsertSlotIsFirst(c: Cache, ip: u32, i: nat)
    requires i <= CACHE_SIZE
    ensures var s := InsertSlot(c, ip, i);
            || (i <= s && (!c[s].valid || c[s].ip == ip) && forall j :: i <= j < s ==> c[j].valid && c[j].ip != ip)
            || (s == 0 && forall j :: i <= j < CACHE_SIZE ==> c[j].valid && c[j].ip != ip)
    decreases CACHE_SIZE - i
  {
    if i < CACHE_SIZE {
      InsertSlotIsFirst(c, ip, i + 1);
    }
  }

  lemma {:induction false} LookupFirst(c: Cache, ip: u32, i: nat, slot: nat)
    requires i <= slot < CACHE_SIZE && c[slot].valid && c[slot].ip == ip
    requires forall j :: i <= j < slot ==> !(c[j].valid && c[j].ip == ip)
    ensures LookupFrom(c, ip, i) == Some(c[slot].mac)
    decreases slot - i
  {
    if i < slot {
      LookupFirst(c, ip, i + 1, slot);
    }
  }

  lemma ResidentSlots(c0: Cache, hist: seq<Binding>, i: nat)
    requires Empty(c0) && |Known(hist)| >= CACHE_SIZE && 1 <= i < CACHE_SIZE
    ensures Learn(c0, hist)[i].valid && Learn(c0, hist)[i].ip == Known(hist)[i]
  {
    LearnHolds(c0, hist);
    assert Resident(hist) == Known(hist)[1..CACHE_SIZE];
    assert Slots(hist)[i] == Resident(hist)[i - 1];
  }

  /** Once eight addresses have been seen, whatever is learned afterwards, slots 1 to 7 keep their addresses. */
  lemma ResidentsStay(c0: Cache, hist: seq<Binding>, more: seq<Binding>, i: nat)
    requires Empty(c0) && |Known(hist)| >= 8 && 1 <= i <= 7
    ensures Learn(c0, hist)[i].valid && Learn(c0, hist + more)[i].valid
    ensures Learn(c0, hist)[i].ip == Learn(c0, hist + more)[i].ip == Known(hist)[i]
  {
    KnownGrows(hist, more);
    ResidentSlots(c0, hist, i);
    ResidentSlots(c0, hist + more, i);
  }

  lemma {:induction false} KnownGrows(hist: seq<Binding>, more: seq<Binding>)
    ensures Known(hist) <= Known(hist + more)
  {
    if more == [] {
      assert hist + more == hist;
    } else {
      var n := |more| - 1;
      assert (hist + more)[..|hist + more| - 1] == hist + more[..n];
      KnownGrows(hist, more[..n]);
    }
  }
}
