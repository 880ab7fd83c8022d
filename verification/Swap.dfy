/** The swap store of code/src/swap.c: 256 slots that behave as a bounded map from pages to contents. */
module Swap {
  import opened Bytes

  const PAGE_SIZE: nat := 4096
  const SWAP_MAX_PAGES: nat := 256

  type Page = p: seq<u8> | |p| == PAGE_SIZE witness seq(PAGE_SIZE, _ => 0)

  datatype Slot<+D> = Slot(virtAddr: u32, data: D, used: bool)
  type SwapPage = Slot<Page>

  const ZERO_PAGE: Page := seq(PAGE_SIZE, _ => 0)

  /** `virt_addr & ~0xFFF` */
  function Aligned(va: u32): (a: u32)
    ensures a <= va < a + PAGE_SIZE && a % PAGE_SIZE == 0
    ensures a == va - va % 4096
  {
    va - va % PAGE_SIZE
  }

  // ---- The bounded map -------------------------------------------------------------------------

  /** What one `swap_write` does to the map: known pages are updated, new ones taken while there is room. */
  function Write(m: map<u32, Page>, a: u32, page: Page): map<u32, Page> {
    if a in m || |m| < SWAP_MAX_PAGES then m[a := page] else m
  }

  datatype Saved = Saved(addr: u32, page: Page)

  function AfterWrites(hist: seq<Saved>): map<u32, Page> {
    if hist == [] then map[]
    else Write(AfterWrites(hist[..|hist| - 1]), hist[|hist| - 1].addr, hist[|hist| - 1].page)
  }

  /** The distinct addresses ever written, in order of first appearance. */
  function Seen(hist: seq<Saved>): seq<u32> {
    if hist == [] then []
    else
      var s := Seen(hist[..|hist| - 1]);
      if hist[|hist| - 1].addr in s then s else s + [hist[|hist| - 1].addr]
  }

  function LastPage(hist: seq<Saved>, a: u32): Option<Page> {
    if hist == [] then None
    else if hist[|hist| - 1].addr == a then Some(hist[|hist| - 1].page)
    else LastPage(hist[..|hist| - 1], a)
  }

  /** The pages with a slot: the first 256 distinct ones. */
  function Accepted(hist: seq<Saved>): seq<u32> {
    var s := Seen(hist);
    if |s| <= SWAP_MAX_PAGES then s else s[..SWAP_MAX_PAGES]
  }

  lemma SeenStep(hist: seq<Saved>)
    requires hist != []
    ensures var h, a := hist[..|hist| - 1], hist[|hist| - 1].addr;
            Accepted(hist) == if a !in Accepted(h) && |Accepted(h)| < SWAP_MAX_PAGES then Accepted(h) + [a] else Accepted(h)
  {
  }

  /** After any run of writes the store holds exactly the first 256 distinct pages, each with the page
      written last; from then on only those can be updated. */
  lemma {:induction false} StoreExact(hist: seq<Saved>)
    ensures |AfterWrites(hist)| == |Accepted(hist)| == if |Seen(hist)| <= 256 then |Seen(hist)| else 256
    ensures Accepted(hist) <= Seen(hist)
    ensures forall a :: a in AfterWrites(hist) <==> a in Accepted(hist)
    ensures forall a :: a in AfterWrites(hist) ==> Some(AfterWrites(hist)[a]) == LastPage(hist, a)
  {
    if hist != [] {
      StoreExact(hist[..|hist| - 1]);
      SeenStep(hist);
    }
  }

  // ---- The slots -------------------------------------------------------------------------------

  /** The first `n` slots are the ones in use, for distinct pages. */
  ghost predicate Layout<D>(s: seq<Slot<D>>, n: nat) {
    && |s| == SWAP_MAX_PAGES && n <= SWAP_MAX_PAGES
    && (forall i :: 0 <= i < SWAP_MAX_PAGES ==> (s[i].used <==> i < n))
    && (forall i :: 0 <= i < n ==> s[i].virtAddr % PAGE_SIZE == 0)
    && (forall i, j :: 0 <= i < j < n ==> s[i].virtAddr != s[j].virtAddr)
  }

  /** They hold the map `m`. */
  ghost predicate Holds<D>(s: seq<Slot<D>>, n: nat, m: map<u32, D>)
    requires n <= |s|
  {
    && |m| == n
    && (forall i :: 0 <= i < n ==> s[i].virtAddr in m && m[s[i].virtAddr] == s[i].data)
    && (forall a :: a in m ==> a in Addresses(s, n))
  }

  ghost function Addresses<D>(s: seq<Slot<D>>, n: nat): set<u32>
    requires n <= |s|
  {
    set i | 0 <= i < n :: s[i].virtAddr
  }

  lemma AddressesSame<D>(s: seq<Slot<D>>, s': seq<Slot<D>>, n: nat)
    requires n <= |s| && n <= |s'| && forall i :: 0 <= i < n ==> s'[i].virtAddr == s[i].virtAddr
    ensures Addresses(s', n) == Addresses(s, n)
  {
    forall a
      ensures a in Addresses(s', n) <==> a in Addresses(s, n)
    {
      if a in Addresses(s', n) {
        var i :| 0 <= i < n && s'[i].virtAddr == a;
        assert s[i].virtAddr == a;
      }
      if a in Addresses(s, n) {
        var i :| 0 <= i < n && s[i].virtAddr == a;
        assert s'[i].virtAddr == a;
      }
    }
  }

  lemma AddressesStep<D>(s: seq<Slot<D>>, n: nat)
    requires n < |s|
    ensures Addresses(s, n + 1) == Addresses(s, n) + {s[n].virtAddr}
  {
  }

  lemma LayoutTaken<D>(s: seq<Slot<D>>, s': seq<Slot<D>>, n: nat, e: Slot<D>)
    requires Layout(s, n) && n < SWAP_MAX_PAGES && e.virtAddr % PAGE_SIZE == 0 && e.used
    requires forall i :: 0 <= i < n ==> s[i].virtAddr != e.virtAddr
    requires s' == s[n := e]
    ensures Layout(s', n + 1)
  {
    forall i, j | 0 <= i < j < n + 1
      ensures s'[i].virtAddr != s'[j].virtAddr
    {
      assert s'[i] == s[i];
      if j < n { assert s'[j] == s[j]; }
    }
    forall i | 0 <= i < SWAP_MAX_PAGES
      ensures s'[i].used <==> i < n + 1
    {
      if i != n { assert s'[i] == s[i]; }
    }
  }

  lemma MapGrows<D>(m: map<u32, D>, a: u32, d: D)
    requires a !in m
    ensures |m[a := d]| == |m| + 1
  {
    assert m[a := d].Keys == m.Keys + {a};
    assert |m[a := d].Keys| == |m.Keys| + 1;
  }

  lemma HoldsTaken<D>(s: seq<Slot<D>>, s': seq<Slot<D>>, n: nat, m: map<u32, D>, m': map<u32, D>, e: Slot<D>)
    requires n < |s| && Holds(s, n, m) && e.virtAddr !in m && s' == s[n := e] && m' == m[e.virtAddr := e.data]
    ensures Holds(s', n + 1, m')
  {
    MapGrows(m, e.virtAddr, e.data);
    AddressesSame(s, s', n);
    AddressesStep(s', n);
    forall i | 0 <= i < n + 1
      ensures s'[i].virtAddr in m' && m'[s'[i].virtAddr] == s'[i].data
    {
      if i < n { assert s'[i] == s[i]; }
    }
    forall a | a in m'
      ensures a in Addresses(s', n + 1)
    {
      assert a == e.virtAddr || a in Addresses(s, n);
    }
  }

  lemma SlotTaken<D>(s: seq<Slot<D>>, s': seq<Slot<D>>, n: nat, m: map<u32, D>, e: Slot<D>)
    requires Layout(s, n) && Holds(s, n, m) && n < SWAP_MAX_PAGES && e.virtAddr !in m && e.virtAddr % PAGE_SIZE == 0 && e.used
    requires s' == s[n := e]
    ensures Layout(s', n + 1) && Holds(s', n + 1, m[e.virtAddr := e.data])
  {
    LayoutTaken(s, s', n, e);
    HoldsTaken(s, s', n, m, m[e.virtAddr := e.data], e);
  }

  lemma DataReplaced<D>(s: seq<Slot<D>>, n: nat, m: map<u32, D>, k: nat, page: D)
    requires Layout(s, n) && Holds(s, n, m) && k < n
    ensures var s' := s[k := s[k].(data := page)];
            Layout(s', n) && Holds(s', n, m[s[k].virtAddr := page])
  {
    var s', m' := s[k := s[k].(data := page)], m[s[k].virtAddr := page];
    assert m'.Keys == m.Keys;
    assert |m'.Keys| == |m.Keys|;
    AddressesSame(s, s', n);
  }

  lemma SetTwice<D>(m: map<u32, D>, a: u32, first: D, last: D)
    ensures m[a := first][a := last] == m[a := last]
  {
  }

  class SwapStore {
    const slots: array<SwapPage>
    /** The map the slots stand for and the number of slots in use, which come first. */
    ghost var contents: map<u32, Page>
    ghost var count: nat

    ghost predicate Valid()
      reads this, slots
    {
      Layout(slots[..], count) && Holds(slots[..], count, contents)
    }

    /** `swap_init` */
    constructor ()
      ensures Valid() && fresh(slots) && contents == map[]
    {
      slots := new SwapPage[SWAP_MAX_PAGES](_ => Slot(0, ZERO_PAGE, false));
      contents, count := map[], 0;
      new;
      for i := 0 to SWAP_MAX_PAGES
        invariant contents == map[] && count == 0
        invariant forall j :: 0 <= j < SWAP_MAX_PAGES ==> !slots[j].used
      {
        slots[i] := slots[i].(used := false);
        slots[i] := slots[i].(virtAddr := 0);
      }
    }

    /** `swap_find_index` */
    method FindIndex(va: u32) returns (idx: int)
      requires Valid()
      ensures -1 <= idx < count
      ensures idx == -1 <==> Aligned(va) !in contents
      ensures idx != -1 ==> slots[idx].virtAddr == Aligned(va)
    {
      var aligned := Aligned(va);
      for i := 0 to SWAP_MAX_PAGES
        invariant forall j :: 0 <= j < i && j < count ==> slots[j].virtAddr != aligned
      {
        if slots[i].used && slots[i].virtAddr == aligned {
          return i;
        }
      }
      return -1;
    }

    /** `swap_exists` */
    method Exists(va: u32) returns (found: bool)
      requires Valid()
      ensures found <==> Aligned(va) in contents
    {
      var idx := FindIndex(va);
      return idx != -1;
    }

    /** The copying loop of `swap_read`. */
    method CopyOutOf(idx: nat, mem: array<u8>, phys: u32)
      requires idx < slots.Length && phys + PAGE_SIZE <= mem.Length
      modifies mem
      ensures mem[..phys] == old(mem[..phys]) && mem[phys + PAGE_SIZE..] == old(mem[phys + PAGE_SIZE..])
      ensures mem[phys..phys + PAGE_SIZE] == slots[idx].data
    {
      ghost var page := slots[idx].data;
      for i := 0 to PAGE_SIZE
        invariant slots[idx].data == page
        invariant mem[..phys] == old(mem[..phys]) && mem[phys + i..] == old(mem[phys + i..])
        invariant mem[phys..phys + i] == page[..i]
      {
        mem[phys + i] := slots[idx].data[i];
        assert mem[phys..phys + i + 1] == mem[phys..phys + i] + [mem[phys + i]];
      }
      assert page[..PAGE_SIZE] == page;
    }

    /** `swap_read`: the whole page goes to physical memory, for any address inside the page. */
    method Read(va: u32, mem: array<u8>, phys: u32)
      requires Valid() && phys + PAGE_SIZE <= mem.Length
      modifies mem
      ensures Aligned(va) !in contents ==> mem[..] == old(mem[..])
      ensures Aligned(va) in contents ==>
                mem[..] == old(mem[..phys]) + contents[Aligned(va)] + old(mem[phys + PAGE_SIZE..])
    {
      var idx := FindIndex(va);
      if idx != -1 {
        CopyOutOf(idx, mem, phys);
        assert mem[..] == mem[..phys] + mem[phys..phys + PAGE_SIZE] + mem[phys + PAGE_SIZE..];
      }
    }

    /** Take the first free slot for a new page. */
    method TakeSlot(aligned: u32) returns (idx: int)
      requires Valid() && aligned !in contents && aligned % PAGE_SIZE == 0
      modifies this, slots
      ensures Valid()
      ensures old(count) == SWAP_MAX_PAGES ==> idx == -1 && contents == old(contents)
      ensures old(count) < SWAP_MAX_PAGES ==>
                && 0 <= idx < count && slots[idx].virtAddr == aligned
                && contents == old(contents)[aligned := slots[idx].data]
    {
      ghost var s, n, m := slots[..], count, contents;
      for i := 0 to SWAP_MAX_PAGES
        invariant i <= n && slots[..] == s && count == n && contents == m
      {
        if !slots[i].used {
          ghost var e := Slot(aligned, s[n].data, true);
          SlotTaken(s, s[n := e], n, m, e);
          slots[i] := slots[i].(used := true);
          slots[i] := slots[i].(virtAddr := aligned);
          contents, count := m[aligned := s[n].data], n + 1;
          assert slots[..] == s[n := e];
          return i;
        }
      }
      return -1;
    }

    /** The copying loop of `swap_write`. */
    method CopyLoop(idx: nat, mem: array<u8>, phys: u32) returns (ghost page: Page)
      requires idx < slots.Length && phys + PAGE_SIZE <= mem.Length
      modifies slots
      ensures page == mem[phys..phys + PAGE_SIZE]
      ensures slots[..] == old(slots[..])[idx := old(slots[idx]).(data := page)]
    {
      ghost var s := slots[..];
      for i := 0 to PAGE_SIZE
        invariant slots[..] == s[idx := slots[idx]]
        invariant slots[idx] == s[idx].(data := slots[idx].data)
        invariant slots[idx].data[..i] == mem[phys..phys + i]
      {
        slots[idx] := slots[idx].(data := slots[idx].data[i := mem[phys + i]]);
        assert mem[phys..phys + i + 1] == mem[phys..phys + i] + [mem[phys + i]];
      }
      page := slots[idx].data;
      assert page[..PAGE_SIZE] == page;
    }

    /** Overwrite the page in a used slot. */
    method CopyIn(idx: nat, mem: array<u8>, phys: u32)
      requires Valid() && idx < count && phys + PAGE_SIZE <= mem.Length
      modifies slots, this`contents
      ensures Valid()
      ensures contents == old(contents)[old(slots[idx].virtAddr) := mem[phys..phys + PAGE_SIZE]]
    {
      ghost var s := slots[..];
      ghost var page := CopyLoop(idx, mem, phys);
      DataReplaced(s, count, contents, idx, page);
      contents := contents[s[idx].virtAddr := page];
    }

    /** `swap_write` */
    method WritePage(va: u32, mem: array<u8>, phys: u32)
      requires Valid() && phys + PAGE_SIZE <= mem.Length
      modifies this, slots
      ensures Valid()
      ensures contents == Write(old(contents), Aligned(va), mem[phys..phys + PAGE_SIZE])
    {
      var idx := FindIndex(va);
      if idx == -1 {
        idx := TakeSlot(Aligned(va));
        if idx != -1 {
          SetTwice(old(contents), Aligned(va), slots[idx].data, mem[phys..phys + PAGE_SIZE]);
        }
      }
      if idx != -1 {
        CopyIn(idx, mem, phys);
      }
    }
  }
}
