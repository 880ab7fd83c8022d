/** What the page table, the frame allocator and the swap store amount to together: independent pages of
    bytes, each on a frame of its own. */
module VirtualMemory {
  import opened Bytes
  import opened Swap

  const PAGE_ENTRIES: nat := 1024
  /** First address past the one page table: 4 MB, also where the allocator starts. */
  const TABLE_SPAN: nat := PAGE_ENTRIES * PAGE_SIZE
  /** The 16 MB `paging_init` announces to the allocator. */
  const MEMORY_SIZE: nat := 0x100_0000

  /** `frames[p]`: the frame address of each mapped page number; `reserved`: the frames the paging code itself
      writes to, which hold the tables, the swap store, the watermark, the kernel's stack and the screen;
      `bytes[p]`: the contents of each page mapped to any other frame; `store`: the swap store; `free`: the
      allocator's watermark. */
  datatype Vm = Vm(bytes: map<nat, Page>, frames: map<nat, u32>, store: map<u32, Page>, free: u32, reserved: set<u32>)

  function PageNo(va: u32): nat {
    va / PAGE_SIZE
  }

  function Translate(vm: Vm, va: u32): Option<u32>
    requires forall p :: p in vm.frames ==> vm.frames[p] <= MEMORY_SIZE
  {
    if PageNo(va) in vm.frames then Some(vm.frames[PageNo(va)] + va % PAGE_SIZE) else None
  }

  datatype Reply = Reply(vm: Vm, ok: bool)

  /** `swap_read` into a frame and `map_page` to it. Above the page table's span nothing gets mapped. */
  function Load(vm: Vm, va: u32, frame: u32): Vm
    requires Aligned(va) in vm.store
  {
    if va < TABLE_SPAN then
      vm.(bytes := vm.bytes[PageNo(va) := vm.store[Aligned(va)]], frames := vm.frames[PageNo(va) := frame])
    else vm
  }

  /** `page_fault_handler` as it is meant, on memory addressable by frame; `ok` is false where the code panics. */
  function Fault(vm: Vm, va: u32): Reply {
    if Aligned(va) !in vm.store || vm.free >= MEMORY_SIZE then Reply(vm, false)
    else Reply(Load(vm.(free := vm.free + PAGE_SIZE), va, vm.free), true)
  }

  /** `unmap_page` */
  function Unmap(vm: Vm, va: u32): Vm {
    vm.(bytes := vm.bytes - {PageNo(va)}, frames := vm.frames - {PageNo(va)})
  }

  /** `swap_write` of a mapped page from the frame it is on. */
  function WriteBack(vm: Vm, va: u32): Vm
    requires PageNo(va) in vm.bytes
  {
    vm.(store := Write(vm.store, Aligned(va), vm.bytes[PageNo(va)]))
  }

  /** A program's store of one byte at a mapped address. */
  function Poke(vm: Vm, va: u32, b: u8): Vm
    requires PageNo(va) in vm.bytes
  {
    vm.(bytes := vm.bytes[PageNo(va) := vm.bytes[PageNo(va)][va % PAGE_SIZE := b]])
  }

  datatype Event = OnFault(va: u32) | OnUnmap(va: u32) | OnWriteBack(va: u32) | OnPoke(va: u32, b: u8)

  /** Programs do not write to the reserved frames, and these are not written to the store. */
  predicate Proper(vm: Vm, e: Event) {
    (e.OnWriteBack? || e.OnPoke?) && PageNo(e.va) in vm.frames ==> vm.frames[PageNo(e.va)] !in vm.reserved
  }

  /** At an address without a mapping, write-backs and program writes have no effect of their own: the fault
      they cause is an event. */
  function Step(vm: Vm, e: Event): Vm
    requires Proper(vm, e)
  {
    match e
    case OnFault(va) => Fault(vm, va).vm
    case OnUnmap(va) => Unmap(vm, va)
    case OnWriteBack(va) => if PageNo(va) in vm.bytes then WriteBack(vm, va) else vm
    case OnPoke(va, b) => if PageNo(va) in vm.bytes then Poke(vm, va, b) else vm
  }

  predicate ProperRun(vm: Vm, es: seq<Event>)
    decreases |es|, 0
  {
    es != [] ==> ProperRun(vm, es[..|es| - 1]) && Proper(Run(vm, es[..|es| - 1]), es[|es| - 1])
  }

  function Run(vm: Vm, es: seq<Event>): Vm
    requires ProperRun(vm, es)
    decreases |es|, 1
  {
    if es == [] then vm else Step(Run(vm, es[..|es| - 1]), es[|es| - 1])
  }

  // ---- Invariant -------------------------------------------------------------------------------

  ghost predicate Injective(frames: map<nat, u32>) {
    forall p, q :: p in frames && q in frames && p != q ==> frames[p] != frames[q]
  }

  /** Present pages lie below 4 MB of address space, on distinct aligned frames below the watermark, each
      either its boot-time identity frame or one handed out by the allocator. */
  ghost predicate Inv(vm: Vm) {
    && (forall p :: p in vm.bytes <==> p in vm.frames && vm.frames[p] !in vm.reserved)
    && (forall f :: f in vm.reserved ==> f < TABLE_SPAN)
    && Injective(vm.frames)
    && (forall p :: p in vm.frames ==> p < PAGE_ENTRIES && vm.frames[p] % PAGE_SIZE == 0 && vm.frames[p] < vm.free)
    && (forall p :: p in vm.frames ==> vm.frames[p] == p * PAGE_SIZE || TABLE_SPAN <= vm.frames[p])
    && TABLE_SPAN <= vm.free <= MEMORY_SIZE && vm.free % PAGE_SIZE == 0
  }

  /** Right after `paging_init`: the first 4 MB on themselves, an empty store, all frames free. */
  ghost predicate Booted(vm: Vm) {
    && vm.frames == (map p: nat | p < PAGE_ENTRIES :: p * PAGE_SIZE)
    && (forall p :: p in vm.bytes <==> p in vm.frames && vm.frames[p] !in vm.reserved)
    && (forall f :: f in vm.reserved ==> f < TABLE_SPAN)
    && vm.store == map[] && vm.free == TABLE_SPAN
  }

  lemma BootedInv(vm: Vm)
    requires Booted(vm)
    ensures Inv(vm)
  {
  }

  lemma FaultInv(vm: Vm, va: u32)
    requires Inv(vm)
    ensures Inv(Fault(vm, va).vm) && vm.free <= Fault(vm, va).vm.free
  {
  }

  lemma UnmapInv(vm: Vm, va: u32)
    requires Inv(vm)
    ensures Inv(Unmap(vm, va))
  {
  }

  /** Events other than faults hand out no frame. */
  lemma StepInv(vm: Vm, e: Event)
    requires Inv(vm) && Proper(vm, e)
    ensures Inv(Step(vm, e)) && vm.free <= Step(vm, e).free
    ensures !e.OnFault? ==> Step(vm, e).free == vm.free
  {
    match e {
      case OnFault(va) => FaultInv(vm, va);
      case OnUnmap(va) => UnmapInv(vm, va);
      case OnWriteBack(va) =>
      case OnPoke(va, b) =>
    }
  }

  /** Whole runs: whatever faults, unmappings, write-backs and program writes off the reserved frames happen,
      in any order, present entries stay injective on frames and the watermark stays within memory. */
  lemma {:induction false} RunInv(vm: Vm, es: seq<Event>)
    requires Inv(vm) && ProperRun(vm, es)
    ensures Inv(Run(vm, es)) && vm.free <= Run(vm, es).free
  {
    if es != [] {
      RunInv(vm, es[..|es| - 1]);
      StepInv(Run(vm, es[..|es| - 1]), es[|es| - 1]);
    }
  }

  /** With memory addressable by frame a fault is served, that is, the handler returns and the address
      translates, exactly when the page is in the store, a frame is left and the address lies below 4 MB: above,
      `map_page` finds no page table and the handler returns with nothing mapped and a frame spent. */
  lemma ServedIff(vm: Vm, va: u32)
    requires Inv(vm)
    ensures var r := Fault(vm, va);
            r.ok && va / 4096 in r.vm.frames <==> va - va % 4096 in vm.store && vm.free < 0x100_0000 && va < 0x40_0000
  {
  }

  // ---- Translation, unmapping and stores -------------------------------------------------------

  /** Right after booting every address below 4 MB translates to itself and no other address at all. */
  lemma BootTranslation(vm: Vm, va: u32)
    requires Booted(vm)
    ensures Translate(vm, va) == if va < 0x40_0000 then Some(va) else None
  {
    assert va == 4096 * (va / 4096) + va % 4096;
  }

  /** Unmapping an address takes away exactly the translations of its page. */
  lemma UnmapEffect(vm: Vm, va: u32, other: u32)
    requires Inv(vm)
    ensures var vm' := Unmap(vm, va);
            && Inv(vm') && vm'.store == vm.store && vm'.free == vm.free
            && Translate(vm', other) == (if other / 4096 == va / 4096 then None else Translate(vm, other))
            && forall q :: q != va / 4096 ==> (q in vm'.bytes <==> q in vm.bytes) && (q in vm.bytes ==> vm'.bytes[q] == vm.bytes[q])
  {
    UnmapInv(vm, va);
  }

  /** A stored byte is at its address and nowhere else, and no translation changes. */
  lemma PokeEffect(vm: Vm, va: u32, b: u8, q: nat, off: nat)
    requires Inv(vm) && va / 4096 in vm.bytes && q in vm.bytes && off < 4096
    ensures var vm' := Poke(vm, va, b);
            && vm'.frames == vm.frames && vm'.store == vm.store && vm'.free == vm.free && q in vm'.bytes
            && vm'.bytes[q][off] == if q == va / 4096 && off == va % 4096 then b else vm.bytes[q][off]
  {
  }

  // ---- Above the page table --------------------------------------------------------------------

  function Retries(va: u32, n: nat): seq<Event> {
    seq(n, _ => OnFault(va))
  }

  /** Even with memory addressable by frame, an instruction that faults on a stored page above 4 MB faults
      again, and every retry spends a frame. */
  lemma {:induction false} RetriesDrain(vm: Vm, va: u32, n: nat)
    requires Inv(vm) && Aligned(va) in vm.store && va >= TABLE_SPAN
    requires vm.free + n * PAGE_SIZE <= MEMORY_SIZE
    ensures ProperRun(vm, Retries(va, n))
    ensures Run(vm, Retries(va, n)) == vm.(free := vm.free + n * PAGE_SIZE)
  {
    if n > 0 {
      RetriesDrain(vm, va, n - 1);
      assert Retries(va, n)[..n - 1] == Retries(va, n - 1);
    }
  }

  // ---- The handler as written ------------------------------------------------------------------

  function Left(vm: Vm): nat {
    if vm.free < MEMORY_SIZE then MEMORY_SIZE - vm.free else 0
  }

  /** `page_fault_handler` as written: `swap_read` stores to the new frame's address through the page tables,
      so the processor first has to reach that address. */
  function FaultAsWritten(vm: Vm, va: u32): (r: Reply)
    ensures r.vm.store == vm.store && vm.free <= r.vm.free
    ensures r.ok ==> vm.free < MEMORY_SIZE && vm.free < r.vm.free
    decreases Left(vm), 0
  {
    if Aligned(va) !in vm.store || vm.free >= MEMORY_SIZE then Reply(vm, false)
    else
      var r := Reach(vm.(free := vm.free + PAGE_SIZE), vm.free);
      if r.ok then Reply(Load(r.vm, va, vm.free), true) else r
  }

  /** A store to an address: without a mapping it faults, and is tried again when the handler returns. */
  function Reach(vm: Vm, dst: u32): (r: Reply)
    ensures r.vm.store == vm.store && vm.free <= r.vm.free
    decreases Left(vm), 1
  {
    if PageNo(dst) in vm.frames then Reply(vm, true)
    else
      var r := FaultAsWritten(vm, dst);
      if r.ok then Reach(r.vm, dst) else r
  }

  /** No frame the allocator hands out has a mapping at its own address, not even after the fault it is for
      has been served. */
  lemma FrameUnreachable(vm: Vm, va: u32)
    requires Inv(vm) && Aligned(va) in vm.store && vm.free < MEMORY_SIZE
    ensures Inv(Fault(vm, va).vm) && Translate(vm, vm.free) == None && Translate(Fault(vm, va).vm, vm.free) == None
  {
    FaultInv(vm, va);
  }

  /** As written no fault is ever served, below 4 MB or above: frames are lost, and nothing else changes. */
  lemma {:induction false} NeverServed(vm: Vm, va: u32)
    requires Inv(vm)
    ensures var r := FaultAsWritten(vm, va);
            !r.ok && r.vm == vm.(free := r.vm.free) && Inv(r.vm)
    decreases Left(vm)
  {
    if Aligned(va) in vm.store && vm.free < MEMORY_SIZE {
      NeverServed(vm.(free := vm.free + PAGE_SIZE), vm.free);
    }
  }

  /** So nothing follows the attempt to reach the new frame. */
  lemma AttemptIsAll(vm: Vm, va: u32, taken: Vm)
    requires Inv(vm) && Aligned(va) in vm.store && vm.free < MEMORY_SIZE && taken == vm.(free := vm.free + PAGE_SIZE)
    ensures Inv(taken) && FaultAsWritten(vm, va) == Reach(taken, vm.free)
  {
    FaultInv(vm, va);
    NeverServed(vm, va);
  }

  /** The handler does what it is meant to do exactly when all it has to do is panic. */
  lemma AsMeantIff(vm: Vm, va: u32)
    requires Inv(vm)
    ensures FaultAsWritten(vm, va) == Fault(vm, va) <==> Aligned(va) !in vm.store || vm.free >= MEMORY_SIZE
  {
    NeverServed(vm, va);
  }

  /** The handler as written returns from every fault of the run. */
  predicate Survives(vm: Vm, es: seq<Event>)
    requires ProperRun(vm, es)
  {
    es != [] ==>
      var before, e := es[..|es| - 1], es[|es| - 1];
      Survives(vm, before) && (e.OnFault? ==> FaultAsWritten(Run(vm, before), e.va).ok)
  }

  /** Whole runs: the kernel survives exactly those without a fault. */
  lemma {:induction false} SurvivesIff(vm: Vm, es: seq<Event>)
    requires Inv(vm) && ProperRun(vm, es)
    ensures Survives(vm, es) <==> forall i :: 0 <= i < |es| ==> !es[i].OnFault?
  {
    if es != [] {
      var before, e := es[..|es| - 1], es[|es| - 1];
      SurvivesIff(vm, before);
      RunInv(vm, before);
      NeverServed(Run(vm, before), e.va);
      assert forall i :: 0 <= i < |before| ==> before[i] == es[i];
    }
  }

  /** How many frames a fault loses: each nested fault takes one more as long as the address of the frame
      taken before happens to be a stored page and memory is left. */
  lemma {:induction false} FramesLost(vm: Vm, va: u32, n: nat)
    requires Inv(vm) && Aligned(va) in vm.store
    requires n >= 1 && vm.free + n * PAGE_SIZE <= MEMORY_SIZE
    requires forall k :: 0 <= k < n - 1 ==> FrameAfter(vm, k) in vm.store
    requires FrameAfter(vm, n - 1) !in vm.store || FrameAfter(vm, n) == MEMORY_SIZE
    ensures FaultAsWritten(vm, va) == Reply(vm.(free := vm.free + n * PAGE_SIZE), false)
    decreases n
  {
    var taken := vm.(free := vm.free + PAGE_SIZE);
    NeverServed(taken, vm.free);
    assert FrameAfter(vm, 0) == vm.free && FrameAfter(vm, 1) == taken.free;
    if n > 1 {
      forall k | 0 <= k < n
        ensures FrameAfter(taken, k) == FrameAfter(vm, k + 1)
      {
      }
      FramesLost(taken, vm.free, n - 1);
    }
  }

  /** The address of the k-th frame from the watermark on. */
  function FrameAfter(vm: Vm, k: nat): int {
    vm.free + k * PAGE_SIZE
  }

  /** An instance: a page stored for address 4 MB right after booting. The fault on it takes the frame at
      4 MB, faults there, takes the next frame, faults there, and panics. */
  lemma StoredAboveTable(vm: Vm, stored: Vm, page: Page)
    requires Booted(vm) && stored == vm.(store := map[0x40_0000 := page])
    ensures FaultAsWritten(stored, 0x40_0000) == Reply(stored.(free := 0x40_2000), false)
  {
    BootedInv(vm);
    assert FrameAfter(stored, 0) == TABLE_SPAN && FrameAfter(stored, 1) == TABLE_SPAN + PAGE_SIZE;
    FramesLost(stored, TABLE_SPAN, 2);
  }

  // ---- What a fault and a run do to the pages --------------------------------------------------

  /** With memory addressable by frame a served fault maps the page to a frame in [4 MB, 16 MB) no other page has or ever had, fills it with
      the stored page, and leaves every other page's translation, and its bytes if it lies off the reserved
      frames, alone. */
  lemma FaultEffect(vm: Vm, va: u32)
    requires Inv(vm) && Aligned(va) in vm.store && vm.free < MEMORY_SIZE && va < TABLE_SPAN
    ensures var vm' := Fault(vm, va).vm;
            var p := PageNo(va);
            && Inv(vm') && Translate(vm', va) == Some(vm.free + va % PAGE_SIZE)
            && TABLE_SPAN <= vm'.frames[p] && vm'.frames[p] + PAGE_SIZE <= MEMORY_SIZE
            && vm'.frames[p] !in vm.frames.Values
            && p in vm'.bytes && vm'.bytes[p] == vm.store[Aligned(va)] && vm'.store == vm.store
            && forall q :: q != p ==>
                 && (q in vm'.frames <==> q in vm.frames)
                 && (q in vm'.bytes <==> q in vm.bytes)
                 && (q in vm.frames ==> vm'.frames[q] == vm.frames[q])
                 && (q in vm.bytes ==> vm'.bytes[q] == vm.bytes[q])
  {
    FaultInv(vm, va);
  }

  /** A page that is stored and not mapped stays so, whatever happens, until a fault on it. */
  lemma {:induction false} StoredPageKept(vm: Vm, es: seq<Event>, va: u32)
    requires Inv(vm) && ProperRun(vm, es) && PageNo(va) !in vm.frames && Aligned(va) in vm.store
    requires forall i :: 0 <= i < |es| ==> !FaultsOn(es[i], PageNo(va))
    ensures var vm' := Run(vm, es);
            PageNo(va) !in vm'.frames && Aligned(va) in vm'.store && vm'.store[Aligned(va)] == vm.store[Aligned(va)]
  {
    if es != [] {
      var before, e := es[..|es| - 1], es[|es| - 1];
      StoredPageKept(vm, before, va);
      RunInv(vm, before);
      assert !FaultsOn(e, PageNo(va));
      if Aligned(e.va) == Aligned(va) { SamePage(va, e.va); }
    }
  }

  predicate FaultsOn(e: Event, p: nat) {
    e.OnFault? && PageNo(e.va) == p
  }

  /** With memory addressable by frame, paging a page out and, after anything else has happened, faulting on any of its addresses brings the
      same bytes back, on a new frame, and disturbs no other page, provided the store accepts the page and a
      frame is left. */
  lemma PageOutAndIn(vm: Vm, va: u32, es: seq<Event>, va': u32)
    requires Inv(vm) && PageNo(va) in vm.bytes && Aligned(va') == Aligned(va)
    requires Aligned(va) in vm.store || |vm.store| < SWAP_MAX_PAGES
    requires var out := Unmap(WriteBack(vm, va), va);
             && ProperRun(out, es) && Run(out, es).free < MEMORY_SIZE
             && forall i :: 0 <= i < |es| ==> !FaultsOn(es[i], PageNo(va))
    ensures var before := Run(Unmap(WriteBack(vm, va), va), es);
            var back := Fault(before, va');
            && PageNo(va) !in before.frames && back.ok
            && back.vm.bytes == before.bytes[PageNo(va) := vm.bytes[PageNo(va)]]
            && back.vm.frames == before.frames[PageNo(va) := before.free]
            && (es == [] ==> back.vm.bytes == vm.bytes)
  {
    PagedOut(vm, va);
    SamePage(va, va');
    StoredPageKept(Unmap(WriteBack(vm, va), va), es, va);
  }

  /** A page paged out lies in the store and is no longer mapped. */
  lemma PagedOut(vm: Vm, va: u32)
    requires Inv(vm) && PageNo(va) in vm.bytes
    requires Aligned(va) in vm.store || |vm.store| < SWAP_MAX_PAGES
    ensures var out := Unmap(WriteBack(vm, va), va);
            && Inv(out) && va < TABLE_SPAN && PageNo(va) !in out.frames
            && Aligned(va) in out.store && out.store[Aligned(va)] == vm.bytes[PageNo(va)]
            && out.bytes[PageNo(va) := vm.bytes[PageNo(va)]] == vm.bytes
  {
    StepInv(vm, OnWriteBack(va));
    UnmapInv(WriteBack(vm, va), va);
  }

  lemma SamePage(va: u32, va': u32)
    requires Aligned(va') == Aligned(va)
    ensures PageNo(va') == PageNo(va)
  {
    assert va == PAGE_SIZE * PageNo(va) + va % PAGE_SIZE;
    assert va' == PAGE_SIZE * PageNo(va') + va' % PAGE_SIZE;
  }

  /** The events that can change the bytes of page `p`. */
  predicate Touches(e: Event, p: nat) {
    !e.OnWriteBack? && PageNo(e.va) == p
  }

  /** A page keeps its frame, and off the reserved frames its bytes, over any run that does not touch it. */
  lemma {:induction false} UntouchedPageKept(vm: Vm, es: seq<Event>, p: nat)
    requires Inv(vm) && ProperRun(vm, es) && p in vm.frames
    requires forall i :: 0 <= i < |es| ==> !Touches(es[i], p)
    ensures var vm' := Run(vm, es);
            && p in vm'.frames && vm'.frames[p] == vm.frames[p]
            && (p in vm.bytes ==> p in vm'.bytes && vm'.bytes[p] == vm.bytes[p])
  {
    if es != [] {
      var before := es[..|es| - 1];
      UntouchedPageKept(vm, before, p);
      RunInv(vm, before);
      assert !Touches(es[|es| - 1], p);
    }
  }

  /** The frames handed out by the successful faults of a run, in order. */
  function Handed(vm: Vm, es: seq<Event>): seq<u32>
    requires ProperRun(vm, es)
  {
    if es == [] then []
    else
      var before, e := Run(vm, es[..|es| - 1]), es[|es| - 1];
      Handed(vm, es[..|es| - 1]) + if e.OnFault? && Fault(before, e.va).ok then [before.free] else []
  }

  /** No frame is handed out twice in a run: the k-th is the k-th page above the starting watermark. */
  lemma {:induction false} FramesFresh(vm: Vm, es: seq<Event>)
    requires Inv(vm) && ProperRun(vm, es)
    ensures Run(vm, es).free == vm.free + |Handed(vm, es)| * 4096 <= 0x100_0000
    ensures forall k :: 0 <= k < |Handed(vm, es)| ==> Handed(vm, es)[k] == vm.free + k * 4096
  {
    if es != [] {
      FramesFresh(vm, es[..|es| - 1]);
      RunInv(vm, es[..|es| - 1]);
    }
  }
}
