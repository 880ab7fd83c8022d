/** The tables, the allocator and the fault handler of code/src/paging.c and code/src/pmm.c in place, with
    physical memory as one directly addressable array. */
module Paging {
  import opened Bytes
  import opened Swap
  import opened VirtualMemory

  const PAGE_PRESENT: u32 := 1
  const PAGE_RW: u32 := 2
  const PAGE_USER: u32 := 4

  predicate Present(e: u32) {
    e % 2 == 1
  }

  /** `e & ~0xFFF` */
  function FrameOf(e: u32): u32 {
    Aligned(e)
  }

  /** `(phys & ~0xFFF) | (flags & 0xFFF) | PAGE_PRESENT` */
  function MakeEntry(phys: u32, flags: u32): (e: u32)
    ensures Present(e) && FrameOf(e) == Aligned(phys)
  {
    var low := flags % PAGE_SIZE;
    var bits := if low % 2 == 1 then low else low + 1;
    EntryParts(Aligned(phys), bits);
    Aligned(phys) + bits
  }

  lemma EntryParts(frame: u32, bits: nat)
    requires frame % PAGE_SIZE == 0 && bits < PAGE_SIZE && bits % 2 == 1
    ensures frame + bits < 0x1_0000_0000 && Present(frame + bits) && FrameOf(frame + bits) == frame
  {
    var n := frame / PAGE_SIZE;
    assert frame == PAGE_SIZE * n;
    PageAndOffset(n, bits);
  }

  lemma PageAndOffset(n: nat, bits: nat)
    requires bits < PAGE_SIZE && bits % 2 == 1 && PAGE_SIZE * n < 0x1_0000_0000
    ensures (PAGE_SIZE * n + bits) % PAGE_SIZE == bits && (PAGE_SIZE * n + bits) % 2 == 1 && n <= 0xF_FFFF
  {
    var half := bits / 2;
    assert bits == 2 * half + 1;
    assert PAGE_SIZE * n + bits == 2 * (2048 * n + half) + 1;
  }

  /** An entry has the frame, the present bit, and all other flags as given: bit 1 makes the page writable,
      bit 2 a user page. */
  lemma EntryFlags(phys: u32, flags: u32)
    ensures var e := MakeEntry(phys, flags);
            && e - e % 4096 == phys - phys % 4096
            && e % 4096 == (if flags % 2 == 1 then flags % 4096 else flags % 4096 + 1)
            && e % 2 == 1 && e / 2 % 2 == flags / 2 % 2 && e / 2 / 2 % 2 == flags / 2 / 2 % 2
  {
    var low := flags % 4096;
    var bits := if low % 2 == 1 then low else low + 1;
    var n, m := Aligned(phys) / 4096, flags / 4096;
    assert flags == 4096 * m + low && Aligned(phys) == 4096 * n;
    BitsOf(m, low, flags);
    BitsOf(n, bits, MakeEntry(phys, flags));
    assert bits / 2 == low / 2;
  }

  lemma EvenPart(k: nat, low: nat)
    ensures (2 * k + low) % 2 == low % 2
  {
  }

  lemma Halves(k: nat, low: nat)
    ensures (2 * k + low) / 2 == k + low / 2
  {
  }

  lemma OffsetOf(n: nat, low: nat)
    requires low < 4096
    ensures (4096 * n + low) % 4096 == low
  {
  }

  lemma BitsOf(n: nat, low: nat, x: nat)
    requires low < 4096 && x == 4096 * n + low
    ensures x % 4096 == low && x % 2 == low % 2 && x / 2 % 2 == low / 2 % 2 && x / 2 / 2 % 2 == low / 2 / 2 % 2
  {
    OffsetOf(n, low);
    EvenPart(2048 * n, low);
    Halves(2048 * n, low);
    EvenPart(1024 * n, low / 2);
    Halves(1024 * n, low / 2);
    EvenPart(512 * n, low / 2 / 2);
  }

  /** A frame mapped with present, writable and user set. */
  lemma UserEntry(phys: u32)
    requires phys % 4096 == 0
    ensures MakeEntry(phys, 7) == phys + 7
  {
  }

  // ---- From tables and memory to pages ---------------------------------------------------------

  type Table = t: seq<u32> | |t| == PAGE_ENTRIES witness seq(PAGE_ENTRIES, _ => 0)

  ghost function FramesIn(pt: Table): map<nat, u32> {
    map p: nat | p < PAGE_ENTRIES && Present(pt[p]) :: FrameOf(pt[p])
  }

  ghost predicate InMemory(pt: Table, mem: seq<u8>) {
    forall p :: 0 <= p < PAGE_ENTRIES && Present(pt[p]) ==> FrameOf(pt[p]) + PAGE_SIZE <= |mem|
  }

  /** The pages on frames the paging code does not itself write to. */
  ghost function BytesIn(pt: Table, mem: seq<u8>, reserved: set<u32>): map<nat, Page>
    requires InMemory(pt, mem)
  {
    map p: nat | p < PAGE_ENTRIES && Present(pt[p]) && FrameOf(pt[p]) !in reserved :: mem[FrameOf(pt[p])..FrameOf(pt[p]) + PAGE_SIZE]
  }

  lemma EntrySet(pt: Table, i: nat, e: u32)
    requires i < PAGE_ENTRIES && Present(e)
    ensures FramesIn(pt[i := e]) == FramesIn(pt)[i := FrameOf(e)]
  {
  }

  lemma EntryCleared(pt: Table, mem: seq<u8>, i: nat, reserved: set<u32>)
    requires i < PAGE_ENTRIES && InMemory(pt, mem)
    ensures FramesIn(pt[i := 0]) == FramesIn(pt) - {i}
    ensures InMemory(pt[i := 0], mem) && BytesIn(pt[i := 0], mem, reserved) == BytesIn(pt, mem, reserved) - {i}
  {
    var pt' := pt[i := 0];
    assert forall p :: 0 <= p < PAGE_ENTRIES && p != i ==> pt'[p] == pt[p];
  }

  /** Memory outside one frame unchanged: pages on other frames keep their bytes. */
  ghost predicate OnlyFrameChanged(mem: seq<u8>, mem': seq<u8>, f: u32) {
    && |mem| == |mem'| && f + PAGE_SIZE <= |mem|
    && mem'[..f] == mem[..f] && mem'[f + PAGE_SIZE..] == mem[f + PAGE_SIZE..]
  }

  lemma FramesApart(f: u32, g: u32)
    requires f % PAGE_SIZE == 0 && g % PAGE_SIZE == 0 && g < f
    ensures g + PAGE_SIZE <= f
  {
    assert f == PAGE_SIZE * (f / PAGE_SIZE) && g == PAGE_SIZE * (g / PAGE_SIZE);
  }

  lemma OtherFrame(mem: seq<u8>, mem': seq<u8>, f: u32, g: u32)
    requires OnlyFrameChanged(mem, mem', f) && f % PAGE_SIZE == 0 && g % PAGE_SIZE == 0 && f != g
    requires g + PAGE_SIZE <= |mem|
    ensures mem'[g..g + PAGE_SIZE] == mem[g..g + PAGE_SIZE]
  {
    if g < f { FramesApart(f, g); } else { FramesApart(g, f); }
    var now, before := mem'[g..g + PAGE_SIZE], mem[g..g + PAGE_SIZE];
    forall i | 0 <= i < PAGE_SIZE
      ensures now[i] == before[i]
    {
      if g < f {
        assert g + i < f && mem'[..f][g + i] == mem[..f][g + i];
      } else {
        var k := f + PAGE_SIZE;
        assert k <= g && mem'[k..][g + i - k] == mem[k..][g + i - k];
      }
    }
  }

  /** Filling a frame no page is on leaves the pages as they are. */
  lemma UnusedFrameFilled(pt: Table, mem: seq<u8>, mem': seq<u8>, f: u32, reserved: set<u32>)
    requires InMemory(pt, mem) && OnlyFrameChanged(mem, mem', f) && f % PAGE_SIZE == 0
    requires forall p :: 0 <= p < PAGE_ENTRIES && Present(pt[p]) ==> FrameOf(pt[p]) != f
    ensures InMemory(pt, mem') && BytesIn(pt, mem', reserved) == BytesIn(pt, mem, reserved)
  {
    forall p: nat | p < PAGE_ENTRIES && Present(pt[p]) && FrameOf(pt[p]) !in reserved
      ensures BytesIn(pt, mem', reserved)[p] == BytesIn(pt, mem, reserved)[p]
    {
      OtherFrame(mem, mem', f, FrameOf(pt[p]));
    }
  }

  /** Mapping page `i` to a frame: that page shows the frame's bytes, the others are as before. */
  lemma PageMapped(pt: Table, mem: seq<u8>, i: nat, e: u32, reserved: set<u32>)
    requires InMemory(pt, mem) && i < PAGE_ENTRIES && Present(e) && FrameOf(e) + PAGE_SIZE <= |mem|
    requires FrameOf(e) !in reserved
    ensures InMemory(pt[i := e], mem)
    ensures BytesIn(pt[i := e], mem, reserved) == BytesIn(pt, mem, reserved)[i := mem[FrameOf(e)..FrameOf(e) + PAGE_SIZE]]
  {
    var pt' := pt[i := e];
    assert forall p :: 0 <= p < PAGE_ENTRIES && p != i ==> pt'[p] == pt[p];
  }

  /** The table after `map_page`: one entry set where there is a table, nothing elsewhere. */
  function Mapped(pt: Table, phys: u32, virt: u32, flags: u32): Table {
    Indices(virt);
    if virt < TABLE_SPAN then pt[PageNo(virt) := MakeEntry(phys, flags)] else pt
  }

  /** Mapping an address to an aligned frame: below 4 MB its page moves to that frame, and nothing else does. */
  lemma MappedPages(pt: Table, mem: seq<u8>, phys: u32, virt: u32, flags: u32, reserved: set<u32>)
    requires InMemory(pt, mem) && phys % PAGE_SIZE == 0 && phys + PAGE_SIZE <= |mem| && phys !in reserved
    ensures var pt' := Mapped(pt, phys, virt, flags);
            && InMemory(pt', mem)
            && (virt >= TABLE_SPAN ==> pt' == pt)
            && (virt < TABLE_SPAN ==>
                  && FramesIn(pt') == FramesIn(pt)[PageNo(virt) := phys]
                  && BytesIn(pt', mem, reserved) == BytesIn(pt, mem, reserved)[PageNo(virt) := mem[phys..phys + PAGE_SIZE]])
  {
    Indices(virt);
    if virt < TABLE_SPAN {
      var e := MakeEntry(phys, flags);
      EntrySet(pt, PageNo(virt), e);
      PageMapped(pt, mem, PageNo(virt), e, reserved);
    }
  }

  /** Writing into the frame of page `i`, which no other page shares, changes only that page. */
  lemma PageWritten(pt: Table, mem: seq<u8>, mem': seq<u8>, i: nat, reserved: set<u32>)
    requires InMemory(pt, mem) && i < PAGE_ENTRIES && Present(pt[i]) && OnlyFrameChanged(mem, mem', FrameOf(pt[i]))
    requires FrameOf(pt[i]) !in reserved
    requires forall p :: 0 <= p < PAGE_ENTRIES && p != i && Present(pt[p]) ==> FrameOf(pt[p]) != FrameOf(pt[i])
    ensures InMemory(pt, mem')
    ensures BytesIn(pt, mem', reserved) == BytesIn(pt, mem, reserved)[i := mem'[FrameOf(pt[i])..FrameOf(pt[i]) + PAGE_SIZE]]
  {
    forall p: nat | p < PAGE_ENTRIES && Present(pt[p]) && FrameOf(pt[p]) !in reserved && p != i
      ensures BytesIn(pt, mem', reserved)[p] == BytesIn(pt, mem, reserved)[p]
    {
      OtherFrame(mem, mem', FrameOf(pt[i]), FrameOf(pt[p]));
    }
  }

  /** The two table indices of an address. */
  lemma Indices(va: u32)
    ensures va / 0x40_0000 < PAGE_ENTRIES && (va / 0x40_0000 == 0 <==> va < TABLE_SPAN)
    ensures va < TABLE_SPAN ==> va / PAGE_SIZE % PAGE_ENTRIES == PageNo(va) < PAGE_ENTRIES
    ensures va >= TABLE_SPAN ==> PageNo(va) >= PAGE_ENTRIES
  {
  }

  lemma DirectoryEntry(tableAddr: u32)
    requires tableAddr % PAGE_SIZE == 0 && tableAddr < TABLE_SPAN
    ensures Present(tableAddr + PAGE_PRESENT + PAGE_RW) && FrameOf(tableAddr + PAGE_PRESENT + PAGE_RW) == tableAddr
    ensures !Present(PAGE_RW)
  {
  }

  lemma WithinMemory(frame: u32)
    requires frame % PAGE_SIZE == 0 && frame < MEMORY_SIZE
    ensures frame + PAGE_SIZE <= MEMORY_SIZE
  {
    FramesApart(MEMORY_SIZE, frame);
  }

  lemma AlignedPage(va: u32)
    ensures PageNo(Aligned(va)) == PageNo(va) && (va < TABLE_SPAN <==> Aligned(va) < TABLE_SPAN)
  {
  }

  lemma NothingThere(pt: Table, mem: seq<u8>, p: nat, reserved: set<u32>)
    requires InMemory(pt, mem) && p >= PAGE_ENTRIES
    ensures p !in FramesIn(pt) && p !in BytesIn(pt, mem, reserved)
    ensures FramesIn(pt) - {p} == FramesIn(pt) && BytesIn(pt, mem, reserved) - {p} == BytesIn(pt, mem, reserved)
  {
  }

  lemma PageAt(pt: Table, mem: seq<u8>, p: nat, reserved: set<u32>)
    requires InMemory(pt, mem) && p in BytesIn(pt, mem, reserved)
    ensures p < PAGE_ENTRIES && Present(pt[p]) && p in FramesIn(pt) && FramesIn(pt)[p] == FrameOf(pt[p])
    ensures BytesIn(pt, mem, reserved)[p] == mem[FrameOf(pt[p])..FrameOf(pt[p]) + PAGE_SIZE]
  {
  }

  /** The address the tables give, if any. */
  function WalkOf(pt: Table, mem: seq<u8>, va: u32): Option<u32>
    requires InMemory(pt, mem) && |mem| == MEMORY_SIZE
  {
    Indices(va);
    if va < TABLE_SPAN && Present(pt[PageNo(va)]) then Some(FrameOf(pt[PageNo(va)]) + va % PAGE_SIZE) else None
  }

  /** The tables translate as the pages say. */
  lemma WalkTranslates(pt: Table, mem: seq<u8>, vm: Vm, va: u32)
    requires InMemory(pt, mem) && |mem| == MEMORY_SIZE && vm.frames == FramesIn(pt)
    requires forall p :: p in vm.frames ==> vm.frames[p] <= MEMORY_SIZE
    ensures WalkOf(pt, mem, va) == Translate(vm, va)
  {
    Indices(va);
  }

  /** Where the tables lead to the byte of a page. */
  lemma ByteAt(pt: Table, mem: seq<u8>, va: u32, reserved: set<u32>)
    requires InMemory(pt, mem) && |mem| == MEMORY_SIZE && PageNo(va) in BytesIn(pt, mem, reserved)
    ensures WalkOf(pt, mem, va) == Some(FrameOf(pt[PageNo(va)]) + va % PAGE_SIZE)
    ensures FrameOf(pt[PageNo(va)]) + va % PAGE_SIZE < |mem|
    ensures mem[FrameOf(pt[PageNo(va)]) + va % PAGE_SIZE] == BytesIn(pt, mem, reserved)[PageNo(va)][va % PAGE_SIZE]
  {
    PageAt(pt, mem, PageNo(va), reserved);
    Indices(va);
  }

  /** One byte stored through the tables. */
  lemma ByteStored(pt: Table, mem: seq<u8>, mem': seq<u8>, va: u32, b: u8, reserved: set<u32>)
    requires InMemory(pt, mem) && PageNo(va) in BytesIn(pt, mem, reserved) && Injective(FramesIn(pt))
    requires FrameOf(pt[PageNo(va)]) + va % PAGE_SIZE < |mem| && mem' == mem[FrameOf(pt[PageNo(va)]) + va % PAGE_SIZE := b]
    ensures InMemory(pt, mem')
    ensures var page := BytesIn(pt, mem, reserved)[PageNo(va)];
            BytesIn(pt, mem', reserved) == BytesIn(pt, mem, reserved)[PageNo(va) := page[va % PAGE_SIZE := b]]
  {
    OffsetStored(pt, mem, mem', PageNo(va), va % PAGE_SIZE, b, reserved);
  }

  lemma OffsetStored(pt: Table, mem: seq<u8>, mem': seq<u8>, p: nat, off: nat, b: u8, reserved: set<u32>)
    requires InMemory(pt, mem) && p in BytesIn(pt, mem, reserved) && off < PAGE_SIZE && Injective(FramesIn(pt))
    requires FrameOf(pt[p]) + off < |mem| && mem' == mem[FrameOf(pt[p]) + off := b]
    ensures InMemory(pt, mem') && BytesIn(pt, mem', reserved) == BytesIn(pt, mem, reserved)[p := BytesIn(pt, mem, reserved)[p][off := b]]
  {
    var f := FrameOf(pt[p]);
    assert mem'[..f] == mem[..f] && mem'[f + PAGE_SIZE..] == mem[f + PAGE_SIZE..];
    assert mem'[f..f + PAGE_SIZE] == mem[f..f + PAGE_SIZE][off := b];
    forall q | 0 <= q < PAGE_ENTRIES && q != p && Present(pt[q])
      ensures FrameOf(pt[q]) != f
    {
      assert q in FramesIn(pt) && p in FramesIn(pt) && FramesIn(pt)[q] == FrameOf(pt[q]);
    }
    PageWritten(pt, mem, mem', p, reserved);
  }

  /** A served fault below 4 MB has set the entry of its page to the frame, present, writable and user; no other
      entry has changed, and otherwise none at all. */
  ghost predicate UserPageSet(pt: seq<u32>, pt': seq<u32>, served: bool, va: u32, frame: u32) {
    |pt| == 1024 && pt' == if served && va < 0x40_0000 then pt[va / 4096 := (frame + 7) % 0x1_0000_0000] else pt
  }

  class Mmu {
    const pageDirectory: array<u32>
    const firstPageTable: array<u32>
    const mem: array<u8>
    const swap: SwapStore
    /** The physical address of `first_page_table`. */
    const tableAddr: u32
    /** The frames the paging code itself writes to, that of the table among them. */
    ghost const reserved: set<u32>
    var freeMemStart: u32
    var systemMaxMem: u32

    /** Sizes, and a directory whose only present entry points to the first page table. */
    ghost predicate Wired()
      reads this, pageDirectory, firstPageTable, mem
    {
      && pageDirectory.Length == PAGE_ENTRIES && firstPageTable.Length == PAGE_ENTRIES && mem.Length == MEMORY_SIZE
      && pageDirectory != firstPageTable
      && tableAddr % PAGE_SIZE == 0 && tableAddr < TABLE_SPAN && systemMaxMem == MEMORY_SIZE
      && pageDirectory[0] == tableAddr + PAGE_PRESENT + PAGE_RW
      && (forall i :: 1 <= i < PAGE_ENTRIES ==> pageDirectory[i] == PAGE_RW)
      && tableAddr in reserved && (forall f :: f in reserved ==> f < TABLE_SPAN)
      && InMemory(firstPageTable[..], mem[..])
    }

    ghost function State(): Vm
      requires Wired()
      reads this, pageDirectory, firstPageTable, mem, swap
    {
      Vm(BytesIn(firstPageTable[..], mem[..], reserved), FramesIn(firstPageTable[..]), swap.contents, freeMemStart, reserved)
    }

    ghost predicate Valid()
      reads this, pageDirectory, firstPageTable, mem, swap, swap.slots
    {
      Wired() && swap.Valid() && Inv(State())
    }

    /** `paging_init`, on memory with any contents. */
    constructor (memory: array<u8>, tableAddr: u32, ghost reserved: set<u32>)
      requires memory.Length == MEMORY_SIZE && tableAddr % PAGE_SIZE == 0 && tableAddr in reserved
      requires forall f :: f in reserved ==> f < TABLE_SPAN
      ensures Valid() && Booted(State()) && mem == memory && this.reserved == reserved
      ensures forall j :: 0 <= j < 1024 ==> firstPageTable[j] == j * 4096 + 3
      ensures pageDirectory[0] == tableAddr + 3 && forall j :: 1 <= j < 1024 ==> pageDirectory[j] == 2
      ensures freeMemStart == 0x40_0000 && systemMaxMem == 0x100_0000
      ensures fresh(pageDirectory) && fresh(firstPageTable) && fresh(swap) && fresh(swap.slots)
      ensures forall p :: p in State().bytes ==> State().bytes[p] == memory[p * PAGE_SIZE..(p + 1) * PAGE_SIZE]
    {
      pageDirectory := new u32[PAGE_ENTRIES];
      firstPageTable := new u32[PAGE_ENTRIES];
      mem := memory;
      this.tableAddr, this.reserved := tableAddr, reserved;
      swap := new SwapStore();
      freeMemStart, systemMaxMem := 0x40_0000, 0;
      new;
      FillTables();
      systemMaxMem := MEMORY_SIZE;
      TablesBooted(firstPageTable[..], mem[..], reserved);
    }

    /** The directory and the first page table as `paging_init` writes them. */
    method FillTables()
      requires pageDirectory.Length == PAGE_ENTRIES && firstPageTable.Length == PAGE_ENTRIES && pageDirectory != firstPageTable
      requires tableAddr % PAGE_SIZE == 0
      modifies pageDirectory, firstPageTable
      ensures pageDirectory[0] == tableAddr + PAGE_PRESENT + PAGE_RW
      ensures forall j :: 1 <= j < PAGE_ENTRIES ==> pageDirectory[j] == PAGE_RW
      ensures forall j :: 0 <= j < PAGE_ENTRIES ==> firstPageTable[j] == j * PAGE_SIZE + PAGE_PRESENT + PAGE_RW
    {
      for i := 0 to PAGE_ENTRIES
        invariant forall j :: 0 <= j < i ==> pageDirectory[j] == PAGE_RW
      {
        pageDirectory[i] := PAGE_RW;
      }
      for i := 0 to PAGE_ENTRIES
        invariant forall j :: 0 <= j < PAGE_ENTRIES ==> pageDirectory[j] == PAGE_RW
        invariant forall j :: 0 <= j < i ==> firstPageTable[j] == j * PAGE_SIZE + PAGE_PRESENT + PAGE_RW
      {
        firstPageTable[i] := i * PAGE_SIZE + PAGE_PRESENT + PAGE_RW;
      }
      pageDirectory[0] := tableAddr + PAGE_PRESENT + PAGE_RW;
    }

    /** `pmm_alloc_page`: the page at the watermark, or 0 when memory is used up. */
    method PmmAllocPage() returns (addr: u32)
      requires freeMemStart + PAGE_SIZE < 0x1_0000_0000
      modifies this`freeMemStart
      ensures old(freeMemStart) >= systemMaxMem ==> addr == 0 && freeMemStart == old(freeMemStart)
      ensures old(freeMemStart) < systemMaxMem ==> addr == old(freeMemStart) && freeMemStart == addr + 4096
    {
      if freeMemStart >= systemMaxMem {
        return 0;
      }
      addr := freeMemStart;
      freeMemStart := freeMemStart + PAGE_SIZE;
    }

    /** `map_page`: nothing happens where no page table is present. */
    method MapPage(phys: u32, virt: u32, flags: u32)
      requires Wired()
      modifies firstPageTable
      ensures firstPageTable[..] == Mapped(old(firstPageTable[..]), phys, virt, flags)
      ensures virt >= 0x40_0000 ==> firstPageTable[..] == old(firstPageTable[..])
      ensures virt < 0x40_0000 ==>
                var e := firstPageTable[virt / 4096];
                && firstPageTable[..] == old(firstPageTable[..])[virt / 4096 := e]
                && e - e % 4096 == phys - phys % 4096
                && e % 4096 == (if flags % 2 == 1 then flags % 4096 else flags % 4096 + 1)
    {
      Indices(virt);
      DirectoryEntry(tableAddr);
      EntryFlags(phys, flags);
      var pdIndex := virt / 0x40_0000;
      var ptIndex := virt / PAGE_SIZE % PAGE_ENTRIES;
      if !Present(pageDirectory[pdIndex]) {
        return;
      }
      assert FrameOf(pageDirectory[pdIndex]) == tableAddr;
      firstPageTable[ptIndex] := MakeEntry(phys, flags);
    }

    /** The table access of `unmap_page`. */
    method ClearEntry(virt: u32)
      requires Wired()
      modifies firstPageTable
      ensures virt >= TABLE_SPAN ==> firstPageTable[..] == old(firstPageTable[..])
      ensures virt < TABLE_SPAN ==> firstPageTable[..] == old(firstPageTable[..])[PageNo(virt) := 0]
    {
      Indices(virt);
      DirectoryEntry(tableAddr);
      var pdIndex := virt / 0x40_0000;
      var ptIndex := virt / PAGE_SIZE % PAGE_ENTRIES;
      if Present(pageDirectory[pdIndex]) {
        assert FrameOf(pageDirectory[pdIndex]) == tableAddr;
        firstPageTable[ptIndex] := 0;
      }
    }

    /** `unmap_page` */
    method UnmapPage(virt: u32)
      requires Valid()
      modifies firstPageTable
      ensures Valid() && State() == Unmap(old(State()), virt)
    {
      ghost var pt, bytes, vm := firstPageTable[..], mem[..], State();
      Indices(virt);
      if virt < TABLE_SPAN {
        EntryCleared(pt, bytes, PageNo(virt), reserved);
      } else {
        NothingThere(pt, bytes, PageNo(virt), reserved);
      }
      ClearEntry(virt);
      StepInv(vm, OnUnmap(virt));
    }

    /** The processor's walk through the tables. */
    method Walk(virt: u32) returns (phys: Option<u32>)
      requires Wired()
      ensures phys == WalkOf(firstPageTable[..], mem[..], virt)
    {
      Indices(virt);
      DirectoryEntry(tableAddr);
      var pde := pageDirectory[virt / 0x40_0000];
      if !Present(pde) {
        return None;
      }
      var pte := firstPageTable[virt / PAGE_SIZE % PAGE_ENTRIES];
      if !Present(pte) {
        return None;
      }
      return Some(FrameOf(pte) + virt % PAGE_SIZE);
    }

    /** `swap_read` into a fresh frame: it holds the stored page, and no mapped page changes. */
    method LoadFrame(va: u32, frame: u32)
      requires Wired() && swap.Valid() && Aligned(va) in swap.contents
      requires frame % PAGE_SIZE == 0 && frame + PAGE_SIZE <= MEMORY_SIZE
      requires forall p :: p in FramesIn(firstPageTable[..]) ==> FramesIn(firstPageTable[..])[p] < frame
      modifies mem
      ensures Wired() && mem[frame..frame + PAGE_SIZE] == swap.contents[Aligned(va)]
      ensures BytesIn(firstPageTable[..], mem[..], reserved) == old(BytesIn(firstPageTable[..], mem[..], reserved))
    {
      ghost var bytes := mem[..];
      swap.Read(va, mem, frame);
      Filled(firstPageTable[..], bytes, mem[..], frame, swap.contents[Aligned(va)], reserved);
    }

    /** `swap_read` and `map_page` in a row. */
    method BringIn(va: u32, frame: u32)
      requires Wired() && swap.Valid() && Aligned(va) in swap.contents
      requires frame % PAGE_SIZE == 0 && TABLE_SPAN <= frame && frame + PAGE_SIZE <= MEMORY_SIZE
      requires forall p :: p in FramesIn(firstPageTable[..]) ==> FramesIn(firstPageTable[..])[p] < frame
      modifies firstPageTable, mem
      ensures Wired()
      ensures firstPageTable[..] == if va < 0x40_0000 then old(firstPageTable[..])[va / 4096 := frame + 7] else old(firstPageTable[..])
      ensures State().frames == if va < TABLE_SPAN then old(State().frames)[PageNo(va) := frame] else old(State().frames)
      ensures State().bytes == if va < TABLE_SPAN then old(State().bytes)[PageNo(va) := swap.contents[Aligned(va)]] else old(State().bytes)
    {
      LoadFrame(va, frame);
      MappedPages(firstPageTable[..], mem[..], frame, va, PAGE_PRESENT + PAGE_RW + PAGE_USER, reserved);
      UserEntry(frame);
      MapPage(frame, va, PAGE_PRESENT + PAGE_RW + PAGE_USER);
    }

    /** The part of `page_fault_handler` that decides and, memory being addressable by frame, loads. */
    method Serve(va: u32) returns (ok: bool)
      requires Wired() && swap.Valid() && TABLE_SPAN <= freeMemStart <= MEMORY_SIZE && freeMemStart % PAGE_SIZE == 0
      requires forall p :: p in FramesIn(firstPageTable[..]) ==> FramesIn(firstPageTable[..])[p] < freeMemStart
      modifies this`freeMemStart, firstPageTable, mem
      ensures Wired() && VirtualMemory.Reply(State(), ok) == Fault(old(State()), va)
      ensures UserPageSet(old(firstPageTable[..]), firstPageTable[..], ok, va, old(freeMemStart))
    {
      var inSwap := swap.Exists(va);
      if !inSwap {
        return false;
      }
      var newPhys := PmmAllocPage();
      if newPhys == 0 {
        return false;
      }
      WithinMemory(newPhys);
      BringIn(va, newPhys);
      return true;
    }

    /** `page_fault_handler` as it is meant, on memory addressable by frame; the answer is false where it panics. */
    method PageFaultDirect(va: u32) returns (ok: bool)
      requires Valid()
      modifies this`freeMemStart, firstPageTable, mem
      ensures Valid() && VirtualMemory.Reply(State(), ok) == Fault(old(State()), va)
      ensures UserPageSet(old(firstPageTable[..]), firstPageTable[..], ok, va, old(freeMemStart))
    {
      StepInv(State(), OnFault(va));
      ok := Serve(va);
    }

    /** The part of `page_fault_handler` before the load: the frame taken, or 0 where it panics. */
    method TakeForFault(va: u32) returns (newPhys: u32)
      requires Valid()
      modifies this`freeMemStart
      ensures Wired() && swap.Valid()
      ensures newPhys == 0 ==> (Aligned(va) !in swap.contents || old(freeMemStart) >= MEMORY_SIZE) && freeMemStart == old(freeMemStart)
      ensures newPhys != 0 ==>
                && Aligned(va) in swap.contents && newPhys == old(freeMemStart) < MEMORY_SIZE
                && freeMemStart == newPhys + PAGE_SIZE
    {
      var inSwap := swap.Exists(va);
      if !inSwap {
        return 0;
      }
      newPhys := PmmAllocPage();
    }

    /** `page_fault_handler` as written; the answer is false where it panics. The first byte `swap_read` stores
        faults in turn, so neither the rest of the copy nor `map_page` is ever reached. */
    method PageFault(va: u32) returns (ok: bool)
      requires Valid()
      modifies this`freeMemStart
      ensures Valid() && VirtualMemory.Reply(State(), ok) == FaultAsWritten(old(State()), va)
      decreases Left(State()), 0
    {
      ghost var vm := State();
      var newPhys := TakeForFault(va);
      if newPhys == 0 {
        return false;
      }
      AttemptIsAll(vm, va, State());
      ok := ReachByte(newPhys);
    }

    method HasMapping(virt: u32) returns (found: bool)
      requires Valid()
      ensures found <==> PageNo(virt) in State().frames
    {
      WalkTranslates(firstPageTable[..], mem[..], State(), virt);
      var phys := Walk(virt);
      found := phys.Some?;
    }

    /** A store to an address, tried again after every fault the handler returns from. */
    method ReachByte(virt: u32) returns (ok: bool)
      requires Valid()
      modifies this`freeMemStart
      ensures Valid() && VirtualMemory.Reply(State(), ok) == Reach(old(State()), virt)
      decreases Left(State()), 1
    {
      ok := HasMapping(virt);
      if ok {
        return;
      }
      ok := PageFault(virt);
      if ok {
        ok := ReachByte(virt);
      }
    }

    /** The write behind a program's store. */
    method WriteThrough(va: u32, b: u8)
      requires Wired() && PageNo(va) in State().bytes && Injective(State().frames)
      modifies mem
      ensures Wired() && State() == Poke(old(State()), va, b)
    {
      ghost var pt, bytes := firstPageTable[..], mem[..];
      ByteAt(pt, bytes, va, reserved);
      var phys := Walk(va);
      mem[phys.value] := b;
      ByteStored(pt, bytes, mem[..], va, b, reserved);
    }

    /** A program's store through the tables. */
    method StoreByte(va: u32, b: u8)
      requires Valid() && PageNo(va) in State().bytes
      modifies mem
      ensures Valid() && State() == Poke(old(State()), va, b)
    {
      StepInv(State(), OnPoke(va, b));
      WriteThrough(va, b);
    }

    /** A program's load through the tables sees the byte of its page. */
    method LoadByte(va: u32) returns (b: u8)
      requires Valid() && PageNo(va) in State().bytes
      ensures b == State().bytes[PageNo(va)][va % PAGE_SIZE]
    {
      ByteAt(firstPageTable[..], mem[..], va, reserved);
      var phys := Walk(va);
      b := mem[phys.value];
    }

    /** The frame of a mapped page. */
    method PageFrame(va: u32) returns (phys: u32)
      requires Valid() && PageNo(va) in State().bytes
      ensures phys + PAGE_SIZE <= mem.Length && mem[phys..phys + PAGE_SIZE] == State().bytes[PageNo(va)]
    {
      PageAt(firstPageTable[..], mem[..], PageNo(va), reserved);
      AlignedPage(va);
      var walked := Walk(Aligned(va));
      phys := walked.value;
    }

    /** `swap_write` of a mapped page from its frame. */
    method SwapOut(va: u32)
      requires Valid() && PageNo(va) in State().bytes
      modifies swap, swap.slots
      ensures Valid() && State() == WriteBack(old(State()), va)
    {
      ghost var vm := State();
      var phys := PageFrame(va);
      swap.WritePage(va, mem, phys);
      assert State() == WriteBack(vm, va);
      StepInv(vm, OnWriteBack(va));
    }
  }

  lemma SameAddress(va: u32, at: u32)
    ensures at == va <==> at / 4096 == va / 4096 && at % 4096 == va % 4096
  {
    assert at == 4096 * (at / 4096) + at % 4096 && va == 4096 * (va / 4096) + va % 4096;
  }

  /** The byte at an address whose page lies off the reserved frames. */
  function ByteIn(vm: Vm, at: u32): u8
    requires at / 4096 in vm.bytes
  {
    vm.bytes[at / 4096][at % 4096]
  }

  lemma PokedByte(vm: Vm, va: u32, b: u8, at: u32)
    requires Inv(vm) && va / 4096 in vm.bytes && at / 4096 in vm.bytes
    ensures at / 4096 in Poke(vm, va, b).bytes
    ensures ByteIn(Poke(vm, va, b), at) == if at == va then b else ByteIn(vm, at)
  {
    PokeEffect(vm, va, b, at / 4096, at % 4096);
    SameAddress(va, at);
  }

  /** A store and then a load: the byte comes back from its own address, and every other address still holds
      what it held. */
  method StoreThenLoad(m: Mmu, va: u32, b: u8, at: u32) returns (c: u8)
    requires m.Valid() && va / 4096 in m.State().bytes && at / 4096 in m.State().bytes
    modifies m.mem
    ensures c == if at == va then b else ByteIn(old(m.State()), at)
  {
    ghost var vm := m.State();
    PokedByte(vm, va, b, at);
    m.StoreByte(va, b);
    assert m.State() == Poke(vm, va, b);
    c := m.LoadByte(at);
    assert c == ByteIn(m.State(), at);
  }

  lemma IdentityTable(pt: Table, mem: seq<u8>, reserved: set<u32>)
    requires |mem| == MEMORY_SIZE
    requires forall j :: 0 <= j < PAGE_ENTRIES ==> pt[j] == j * PAGE_SIZE + PAGE_PRESENT + PAGE_RW
    ensures InMemory(pt, mem)
    ensures FramesIn(pt) == map p: nat | p < PAGE_ENTRIES :: p * PAGE_SIZE
    ensures var bytes := BytesIn(pt, mem, reserved);
            forall p :: p in bytes ==> p < PAGE_ENTRIES && bytes[p] == mem[p * PAGE_SIZE..(p + 1) * PAGE_SIZE]
  {
    assert forall j: nat :: j < PAGE_ENTRIES ==> Present(pt[j]) && FrameOf(pt[j]) == j * PAGE_SIZE;
  }

  lemma TablesBooted(pt: Table, mem: seq<u8>, reserved: set<u32>)
    requires |mem| == MEMORY_SIZE && forall f :: f in reserved ==> f < TABLE_SPAN
    requires forall j :: 0 <= j < PAGE_ENTRIES ==> pt[j] == j * PAGE_SIZE + PAGE_PRESENT + PAGE_RW
    ensures InMemory(pt, mem)
    ensures var vm := Vm(BytesIn(pt, mem, reserved), FramesIn(pt), map[], TABLE_SPAN, reserved);
            && Booted(vm) && Inv(vm)
            && forall p :: p in vm.bytes ==> vm.bytes[p] == mem[p * PAGE_SIZE..(p + 1) * PAGE_SIZE]
  {
    IdentityTable(pt, mem, reserved);
    BootedInv(Vm(BytesIn(pt, mem, reserved), FramesIn(pt), map[], TABLE_SPAN, reserved));
  }

  /** `swap_read` into a frame above every frame in use. */
  lemma Filled(pt: Table, mem: seq<u8>, mem': seq<u8>, f: u32, page: Page, reserved: set<u32>)
    requires InMemory(pt, mem) && f % PAGE_SIZE == 0 && f + PAGE_SIZE <= |mem|
    requires forall p :: p in FramesIn(pt) ==> FramesIn(pt)[p] < f
    requires mem' == mem[..f] + page + mem[f + PAGE_SIZE..]
    ensures mem'[f..f + PAGE_SIZE] == page
    ensures InMemory(pt, mem') && BytesIn(pt, mem', reserved) == BytesIn(pt, mem, reserved)
  {
    assert OnlyFrameChanged(mem, mem', f);
    forall p | 0 <= p < PAGE_ENTRIES && Present(pt[p])
      ensures FrameOf(pt[p]) != f
    {
      assert p in FramesIn(pt);
    }
    UnusedFrameFilled(pt, mem, mem', f, reserved);
  }
}
