/** The virtual memory manager as kernel/mm/virtualPageManager.c writes it: page tables built in place through the
    direct map of physical memory, and a fixed table of address spaces. */
module VirtualMemory {
  import opened Words
  import opened FirstFit
  import opened PhysicalPages
  import opened PageTables
  import opened AddressSpaces
  import opened SpaceCalls
  import opened LargeSpaces
  import opened Boot

  class VirtualMemoryManager {
    const pmm: PhysicalPageManager
    /** Physical memory, by 64-bit words; the kernel reaches all of it through the direct map at HIGH_VMA. */
    const mem: array<u64>
    const pageDirectoryTables: array<PageDirectoryEntry>
    var pageDirectoryCount: nat

    constructor (pmm: PhysicalPageManager, mem: array<u64>, slots: nat)
      requires mem as object != pmm.bitmap
      ensures this.pmm == pmm && this.mem == mem && fresh(pageDirectoryTables)
      ensures pageDirectoryTables.Length == slots && pageDirectoryCount == 0
    {
      this.pmm := pmm;
      this.mem := mem;
      pageDirectoryTables := new PageDirectoryEntry[slots](_ => NO_ENTRY);
      pageDirectoryCount := 0;
    }

    ghost function Pages(): nat
      reads pmm
    {
      pmm.PageCount()
    }

    /** All detected memory is modelled and lies below 4 GiB, where the direct map reaches. */
    ghost predicate Valid()
      reads this, pmm
    {
      && pmm.Valid() && Pages() <= 0x10_0000 && mem.Length == 512 * Pages() && 1 <= Pages()
      && mem as object != pmm.bitmap && mem as object != pageDirectoryTables
      && pmm.bitmap as object != pageDirectoryTables
    }

    ghost function State(): Vm
      reads pmm.bitmap, mem, pageDirectoryTables
    {
      Vm(pmm.PageBits(), mem[..], pageDirectoryTables[..])
    }

    method Poke(address: nat, value: u64)
      requires address / 8 < mem.Length
      modifies mem
      ensures mem[..] == old(mem[..])[address / 8 := value]
    {
      mem[address / 8] := value;
    }

    /** `findFirstFreeSlot`, when some slot of the table is free before the count runs out. */
    method FindFirstFreeSlot() returns (index: nat)
      requires exists i :: 0 <= i < pageDirectoryTables.Length && i < pageDirectoryCount
                           && pageDirectoryTables[i].pml4 == 0
      ensures index < pageDirectoryTables.Length && pageDirectoryTables[index].pml4 == 0
      ensures forall i | 0 <= i < index :: pageDirectoryTables[i].pml4 != 0
    {
      ghost var free :| 0 <= free < pageDirectoryTables.Length && free < pageDirectoryCount
                        && pageDirectoryTables[free].pml4 == 0;
      index := 0;
      while index < pageDirectoryCount
        invariant index <= free
        invariant forall i | 0 <= i < index :: pageDirectoryTables[i].pml4 != 0
      {
        if pageDirectoryTables[index].pml4 == 0 {
          return;
        }
        index := index + 1;
      }
    }

    /** Lines 34 to 44: import the kernel mappings and link the top three tables. */
    method LinkTables(pml4: nat, pml3: nat, pml2: nat)
      requires Aligned(pml4) && Aligned(pml3) && Aligned(pml2)
      requires pml4 / 8 + 512 <= mem.Length && pml3 / 8 < mem.Length
      requires pml3 < 0x1_0000_0000 && pml2 < 0x1_0000_0000
      modifies mem
      ensures mem[..] == TablesLinked(old(mem[..]), pml4, pml3, pml2)
    {
      hide KPage, BitOr;
      KPageIs(0x201);
      KPageIs(0x207);
      KPageIs(pml3 / PAGESIZE);
      KPageIs(pml2 / PAGESIZE);
      Poke(pml4 + 8 * 256, KPage(KPML3));
      Poke(pml4 + 8 * 511, KPage(KPML3_HH));
      Poke(pml4, KPage(pml3));
      Poke(pml3, KPage(pml2));
    }

    /** The mapping loops of lines 53 to 56 and 59 to 62. */
    method MapPages(table: nat, size: nat, physical: nat, stride: nat, flags: nat)
      requires Aligned(table) && Aligned(physical) && Aligned(stride) && flags < PAGESIZE
      requires table / 8 + size <= mem.Length && size <= 512
      requires physical <= 0x1_0000_0000 && stride <= 0x20_0000
      modifies mem
      ensures Mapped(old(mem[..]), mem[..], table, size, physical, stride, flags)
    {
      hide BitOr, Mapped, Aligned, PageAt;
      ghost var before := mem[..];
      NoneMapped(before, table, physical, stride, flags);
      var next := physical;
      for i := 0 to size
        invariant next == PageAt(physical, i, stride) && Aligned(next)
        invariant Mapped(before, mem[..], table, i, physical, stride, flags) && mem.Length == |before|
      {
        PageOr(next, flags);
        EntryFits(physical, i, stride, flags);
        OneMapped(before, mem[..], table, i, physical, stride, flags);
        Poke(table + 8 * i, BitOr(next, flags));
        AlignedSum(next, stride);
        next := next + stride;
      }
    }

    /** `memset(kpml4Addr, 0, 0x8000)`: the eight table pages. */
    method ZeroKernelTables()
      requires KTABLES_END / 8 <= mem.Length
      modifies mem
      ensures KernelSoFar(old(mem[..]), mem[..], false, 0, 2)
    {
      for w := KPML4 / 8 to KTABLES_END / 8
        invariant forall u :: 0 <= u < mem.Length ==>
          mem[u] == if KPML4 / 8 <= u < w then 0 else old(mem[..])[u]
      {
        mem[w] := 0;
      }
    }

    /** Lines 93 to 101: the entries of the upper tables. */
    method LinkKernelTables(ghost before: seq<u64>)
      requires KernelSoFar(before, mem[..], false, 0, 2)
      modifies mem
      ensures KernelSoFar(before, mem[..], true, 0, 2)
    {
      LinkedKernelIs(before, mem[..]);
      hide KPage, BitOr, KernelSoFar;
      assert mem.Length >= KTABLES_END / 8;
      KPageIs(0x201);
      KPageIs(0x202);
      KPageIs(0x203);
      KPageIs(0x204);
      KPageIs(0x205);
      KPageIs(0x206);
      KPageIs(0x207);
      mem[KPML4 / 8 + 256] := KPage(KPML3);
      mem[KPML4 / 8] := KPage(KPML3);
      mem[KPML3 / 8] := KPage(KPML2_1G);
      mem[KPML3 / 8 + 1] := KPage(KPML2_1G + 0x1000);
      mem[KPML3 / 8 + 2] := KPage(KPML2_1G + 0x2000);
      mem[KPML3 / 8 + 3] := KPage(KPML2_1G + 0x3000);
      mem[KPML4 / 8 + 511] := KPage(KPML3_HH);
      mem[KPML3_HH / 8 + 510] := KPage(KPML2_HH);
      assert mem[..] == LinkedKernel(old(mem[..]));
    }

    /** Entry `i` of second-level kernel table `table`. */
    method MapKernelEntry(ghost before: seq<u64>, table: nat, i: nat, address: nat)
      requires 2 <= table <= 6 && i < 512 && KernelSoFar(before, mem[..], true, i, table)
      requires Aligned(address) && address + 135 == KernelEntry(table, i)
      modifies mem
      ensures KernelSoFar(before, mem[..], true, i, table + 1)
    {
      hide KLargePage, BitOr;
      KPageIs(address / PAGESIZE);
      var w := KPML4 / 8 + table * 512 + i;
      assert (w - KPML4 / 8) / 512 == table && (w - KPML4 / 8) % 512 == i;
      mem[w] := KLargePage(address);
    }

    /** One turn of the loop of lines 104 to 111. */
    method MapKernelStep(ghost before: seq<u64>, i: nat, physical: nat)
      requires i < 512 && physical == i * 0x20_0000 && KernelSoFar(before, mem[..], true, i, 2)
      modifies mem
      ensures KernelSoFar(before, mem[..], true, i + 1, 2)
    {
      hide KernelSoFar;
      MapKernelEntry(before, 2, i, physical);
      MapKernelEntry(before, 3, i, physical + 0x4000_0000);
      MapKernelEntry(before, 4, i, physical + 0x4000_0000 * 2);
      MapKernelEntry(before, 5, i, physical + 0x4000_0000 * 3);
      MapKernelEntry(before, 6, i, physical);
      RowDone(before, mem[..], i);
    }

    /** `initVMM`, up to loading the page-table register. */
    method InitVMM()
      requires Valid() && KTABLES_END / 8 <= mem.Length
      modifies this, mem, pageDirectoryTables
      ensures Valid() && pageDirectoryCount == 1000
      ensures forall i | 0 <= i < pageDirectoryTables.Length :: pageDirectoryTables[i] == NO_ENTRY
      ensures forall i | 0 <= i < pageDirectoryTables.Length :: pageDirectoryTables[i].pml4 == 0
      ensures KernelTables(mem[..])
      ensures forall found :: OrdinaryMap(found, Pages()) && BootAllocs(found, Pages(), pmm.PageBits()) ==>
        Booted(State(), Pages(), found) && Isolated(State(), Pages(), map[])
      ensures forall w | 0 <= w < mem.Length && !(KPML4 / 8 <= w < KTABLES_END / 8) :: mem[w] == old(mem[w])
    {
      ghost var before := mem[..];
      pageDirectoryCount := 1000;
      for i := 0 to pageDirectoryTables.Length
        invariant mem[..] == before && pageDirectoryCount == 1000
        invariant forall j | 0 <= j < i :: pageDirectoryTables[j] == NO_ENTRY
      {
        pageDirectoryTables[i] := NO_ENTRY;
      }
      ZeroKernelTables();
      LinkKernelTables(before);
      var physical := 0;
      for i := 0 to 512
        invariant physical == i * 0x20_0000
        invariant KernelSoFar(before, mem[..], true, i, 2)
        invariant forall j | 0 <= j < pageDirectoryTables.Length :: pageDirectoryTables[j] == NO_ENTRY
        invariant pageDirectoryCount == 1000
      {
        MapKernelStep(before, i, physical);
        physical := physical + 0x20_0000;
      }
      KernelTablesDone(before, mem[..]);
      forall found | OrdinaryMap(found, Pages()) && BootAllocs(found, Pages(), pmm.PageBits())
        ensures Booted(State(), Pages(), found) && Isolated(State(), Pages(), map[])
      {
        BootIsIsolated(State(), Pages(), found);
      }
    }

    /** Lines 29 to 32: three table pages and the flags. */
    method AllocateTables(index: nat, flags: u64)
      returns (pml4: u64, pml3: u64, pml2: u64, ghost b1: seq<bool>, ghost b2: seq<bool>)
      requires Valid() && index < pageDirectoryTables.Length
      modifies pmm.bitmap, pageDirectoryTables
      ensures Valid()
      ensures AllocSpec(old(pmm.PageBits()), Pages(), 1, b1, pml4)
      ensures AllocSpec(b1, Pages(), 1, b2, pml3) && AllocSpec(b2, Pages(), 1, pmm.PageBits(), pml2)
      ensures pageDirectoryTables[..] == old(pageDirectoryTables[..])[index :=
        old(pageDirectoryTables[index]).(pml4 := pml4, pml3 := pml3, pml2 := pml2, flags := flags)]
    {
      hide AllocSpec;
      pml4 := pmm.PhysicalPageAlloc(1);
      b1 := pmm.PageBits();
      pageDirectoryTables[index] := pageDirectoryTables[index].(pml4 := pml4);
      pml3 := pmm.PhysicalPageAlloc(1);
      b2 := pmm.PageBits();
      pageDirectoryTables[index] := pageDirectoryTables[index].(pml3 := pml3);
      pml2 := pmm.PhysicalPageAlloc(1);
      pageDirectoryTables[index] := pageDirectoryTables[index].(pml2 := pml2);
      pageDirectoryTables[index] := pageDirectoryTables[index].(flags := flags);
    }

    /** Lines 47 to 56: a lowest table and `size` data pages of 4 KiB. */
    method MapSmall(index: nat, size: nat, pml2: u64, flags: u64)
      returns (pml1: u64, physical: u64, ghost b4: seq<bool>, ghost m2: seq<u64>)
      requires Valid() && index < pageDirectoryTables.Length && size <= 512 && flags < PAGESIZE
      requires Aligned(pml2) && pml2 / PAGESIZE < Pages()
      modifies pmm.bitmap, mem, pageDirectoryTables
      ensures Valid() && pml1 + flags < TWO_TO_64 && pml2 / 8 < mem.Length
      ensures AllocSpec(old(pmm.PageBits()), Pages(), 1, b4, pml1)
      ensures AllocSpec(b4, Pages(), size, pmm.PageBits(), physical)
      ensures m2 == old(mem[..])[pml2 / 8 := pml1 + flags]
      ensures Mapped(m2, mem[..], pml1, size, physical, PAGESIZE, flags)
      ensures pageDirectoryTables[..]
              == old(pageDirectoryTables[..])[index := old(pageDirectoryTables[index]).(pml1 := pml1)]
    {
      hide AllocSpec, BitOr, Mapped;
      ghost var b3 := pmm.PageBits();
      pml1 := pmm.PhysicalPageAlloc(1);
      b4 := pmm.PageBits();
      AllocInRange(b3, b4, Pages(), 1, pml1);
      pageDirectoryTables[index] := pageDirectoryTables[index].(pml1 := pml1);
      OrFlags(pml1 / PAGESIZE, 0, flags);
      Poke(pml2, BitOr(pml1, flags));
      m2 := mem[..];
      physical := pmm.PhysicalPageAlloc(size);
      AllocInRange(b4, pmm.PageBits(), Pages(), size, physical);
      MapPages(pml1, size, physical, PAGESIZE, flags);
    }

    /** Lines 58 to 62: data pages of 2 MiB, entered in the second-level table. */
    method MapLarge(size: nat, pml2: u64, flags: u64) returns (physical: u64)
      requires Valid() && size <= 512 && flags < PAGESIZE && Aligned(pml2) && pml2 / PAGESIZE < Pages()
      modifies pmm.bitmap, mem
      ensures Valid() && Aligned(physical)
      ensures AllocSpec(old(pmm.PageBits()), Pages(), size * 0x200, pmm.PageBits(), physical)
      ensures Mapped(old(mem[..]), mem[..], pml2, size, physical, 0x20_0000, flags)
    {
      hide AllocSpec, Mapped;
      ghost var b3 := pmm.PageBits();
      physical := pmm.PhysicalPageAlloc(size * 0x200);
      AllocInRange(b3, pmm.PageBits(), Pages(), size * 0x200, physical);
      MapPages(pml2, size, physical, 0x20_0000, flags);
    }

    /** `createNewAddressSpace`, whatever its allocations answer. `data` is the physical address of the first data page,
        which the table of spaces does not record. Live spaces stay isolated; with page 0 marked the result is a space
        if the bitmap before the call affords one. */
    method CreateNewAddressSpace(size: u64, flags: u64) returns (index: nat, ghost data: nat)
      requires Valid() && size <= 512 && flags < PAGESIZE
      requires exists i :: 0 <= i < pageDirectoryTables.Length && i < pageDirectoryCount
                           && pageDirectoryTables[i].pml4 == 0
      modifies pmm.bitmap, mem, pageDirectoryTables
      ensures Valid() && index < pageDirectoryTables.Length && pageDirectoryTables[index].flags == flags
      ensures forall i | 0 <= i < index :: old(pageDirectoryTables[i].pml4) != 0
      ensures CallOutcome(old(State()), State(), Pages(), index, Space(pageDirectoryTables[index], data, size))
    {
      hide BitOr, AllocSpec, CallOutcome, Mapped, TablesLinked, LowestTaken, ThreeTaken, FourTaken;
      hide Large, KPage, SmallCall, LargeCall, Aligned;
      ghost var s, n := State(), Pages();
      index := FindFirstFreeSlot();
      var pml4, pml3, pml2, b1, b2 := AllocateTables(index, flags);
      ghost var b3 := pmm.PageBits();
      ThreeInRange(s.bits, b1, b2, b3, n, pml4, pml3, pml2);
      LinkTables(pml4, pml3, pml2);
      ghost var m1 := mem[..];
      if !Large(flags) {
        var pml1, physical, b4, m2 := MapSmall(index, size, pml2, flags);
        data := physical;
        ghost var sp := Space(pageDirectoryTables[index], data, size);
        SmallCallMade(s, State(), n, index, sp, b1, b2, b3, b4, m2);
        SmallCallOutcome(s, State(), n, index, sp);
      } else {
        data := MapLarge(size, pml2, flags);
        ghost var sp := Space(pageDirectoryTables[index], data, size);
        LargeCallMade(s, State(), n, index, sp, b1, b2, b3, m1);
        LargeCallOutcome(s, State(), n, index, sp);
      }
    }

    /** `freeAddressSpace`. */
    method FreeAddressSpace(index: nat)
      requires Valid() && index < pageDirectoryTables.Length
      requires forall f | f in TableFrames(pageDirectoryTables[index]) :: 0 <= f < 8 * pmm.bitmap.Length
      requires var e := pageDirectoryTables[index];
               Aligned(e.pml4) && Aligned(e.pml3) && Aligned(e.pml2) && Aligned(e.pml1)
      modifies pmm.bitmap, pageDirectoryTables
      ensures Valid() && FreeSpaceStep(old(State()), State(), index) && pageDirectoryTables[index].pml4 == 0
    {
      var e := pageDirectoryTables[index];
      assert e.pml4 / PAGESIZE in TableFrames(e) && e.pml3 / PAGESIZE in TableFrames(e);
      assert e.pml2 / PAGESIZE in TableFrames(e) && e.pml1 / PAGESIZE in TableFrames(e);
      FreeOne(e.pml4);
      FreeOne(e.pml3);
      FreeOne(e.pml2);
      FreeOne(e.pml1);
      pageDirectoryTables[index] := NO_ENTRY;
    }

    method FreeOne(address: u64)
      requires Valid() && Aligned(address) && address / PAGESIZE < 8 * pmm.bitmap.Length
      modifies pmm.bitmap
      ensures Valid() && pmm.PageBits() == old(pmm.PageBits())[address / PAGESIZE := false]
    {
      pmm.PhysicalPageFree(address, 1);
    }
  }

  /** A creation right after a free takes the freed slot when no lower one is empty. */
  method FreeThenCreate(vmm: VirtualMemoryManager, index: nat, size: u64, flags: u64)
    returns (again: nat, ghost data: nat)
    requires vmm.Valid() && index < vmm.pageDirectoryTables.Length && index < vmm.pageDirectoryCount
    requires size <= 512 && flags < PAGESIZE
    requires forall f | f in TableFrames(vmm.pageDirectoryTables[index]) :: 0 <= f < 8 * vmm.pmm.bitmap.Length
    requires var e := vmm.pageDirectoryTables[index];
             Aligned(e.pml4) && Aligned(e.pml3) && Aligned(e.pml2) && Aligned(e.pml1)
    requires forall i | 0 <= i < index :: vmm.pageDirectoryTables[i].pml4 != 0
    modifies vmm.pmm.bitmap, vmm.mem, vmm.pageDirectoryTables
    ensures vmm.Valid() && again == index
  {
    ghost var before := vmm.State().dir;
    vmm.FreeAddressSpace(index);
    assert vmm.State().dir == before[index := NO_ENTRY];
    assert forall i | 0 <= i < index :: vmm.pageDirectoryTables[i] == before[i];
    ghost var freed := vmm.State().dir;
    again, data := vmm.CreateNewAddressSpace(size, flags);
    FirstEmptyIs(freed, index, again);
  }

  lemma FirstEmptyIs(dir: seq<PageDirectoryEntry>, index: nat, again: nat)
    requires index < |dir| && again < |dir| && dir[index].pml4 == 0 && dir[again].pml4 == 0
    requires (forall i | 0 <= i < index :: dir[i].pml4 != 0) && forall i | 0 <= i < again :: dir[i].pml4 != 0
    ensures again == index
  {
  }

  lemma TablesTaken(b0: seq<bool>, b1: seq<bool>, b2: seq<bool>, b3: seq<bool>, n: nat, pml4: nat, pml3: nat, pml2: nat)
    requires AllocSpec(b0, n, 1, b1, pml4) && AllocSpec(b1, n, 1, b2, pml3) && AllocSpec(b2, n, 1, b3, pml2)
    requires n <= |b0| == |b1| == |b2|
    ensures b1 == LowestTaken(b0, n) && b2 == LowestTaken(b1, n) && b3 == ThreeTaken(b0, n)
  {
    OnePageIsLowest(b0, n, b1, pml4);
    OnePageIsLowest(b1, n, b2, pml3);
    OnePageIsLowest(b2, n, b3, pml2);
    hide AllocSpec, LowestTaken;
  }

  lemma ThreeInRange(b0: seq<bool>, b1: seq<bool>, b2: seq<bool>, b3: seq<bool>, n: nat,
                     pml4: nat, pml3: nat, pml2: nat)
    requires AllocSpec(b0, n, 1, b1, pml4) && AllocSpec(b1, n, 1, b2, pml3) && AllocSpec(b2, n, 1, b3, pml2)
    requires 1 <= n <= |b0| && n <= 0x10_0000
    ensures |b1| == |b0| && |b2| == |b0| && |b3| == |b0|
    ensures Aligned(pml4) && Aligned(pml3) && Aligned(pml2)
    ensures pml4 / 8 + 512 <= 512 * n && pml3 / 8 < 512 * n && pml2 / 8 < 512 * n
    ensures pml4 / PAGESIZE < n && pml3 / PAGESIZE < n && pml2 / PAGESIZE < n
    ensures pml4 < 0x1_0000_0000 && pml3 < 0x1_0000_0000 && pml2 < 0x1_0000_0000
  {
    AllocInRange(b0, b1, n, 1, pml4);
    AllocInRange(b1, b2, n, 1, pml3);
    AllocInRange(b2, b3, n, 1, pml2);
    hide AllocSpec;
  }

  lemma SmallCallMade(s: Vm, s': Vm, n: nat, index: nat, sp: Space,
                      b1: seq<bool>, b2: seq<bool>, b3: seq<bool>, b4: seq<bool>, m2: seq<u64>)
    requires index < |s.dir| && s.dir[index].pml4 == 0 && s'.dir == s.dir[index := sp.entry]
    requires 1 <= n <= 0x10_0000 && n <= |s.bits| == |b1| == |b2| == |b3| && |s.mem| == 512 * n
    requires sp.size <= 512 && sp.entry.flags < PAGESIZE && !Large(sp.entry.flags)
    requires AllocSpec(s.bits, n, 1, b1, sp.entry.pml4) && AllocSpec(b1, n, 1, b2, sp.entry.pml3)
    requires AllocSpec(b2, n, 1, b3, sp.entry.pml2) && AllocSpec(b3, n, 1, b4, sp.entry.pml1)
    requires AllocSpec(b4, n, sp.size, s'.bits, sp.data)
    requires sp.entry.pml4 / 8 + 512 <= |s.mem| && sp.entry.pml3 / 8 < |s.mem| && sp.entry.pml2 / 8 < |s.mem|
    requires sp.entry.pml3 + 7 < TWO_TO_64 && sp.entry.pml2 + 7 < TWO_TO_64
    requires sp.entry.pml1 + sp.entry.flags < TWO_TO_64
    requires m2 == TablesLinked(s.mem, sp.entry.pml4, sp.entry.pml3, sp.entry.pml2)
                     [sp.entry.pml2 / 8 := sp.entry.pml1 + sp.entry.flags]
    requires Mapped(m2, s'.mem, sp.entry.pml1, sp.size, sp.data, PAGESIZE, sp.entry.flags)
    ensures SmallCall(s, s', n, index, sp)
  {
    hide AllocSpec, LowestTaken, ThreeTaken, FourTaken, Mapped, TablesLinked, Large, SmallAllocs;
    SmallAllocsMade(s.bits, b1, b2, b3, b4, s'.bits, n, sp);
  }

  lemma SmallAllocsMade(b0: seq<bool>, b1: seq<bool>, b2: seq<bool>, b3: seq<bool>, b4: seq<bool>, b5: seq<bool>,
                        n: nat, sp: Space)
    requires n <= |b0| == |b1| == |b2| == |b3|
    requires AllocSpec(b0, n, 1, b1, sp.entry.pml4) && AllocSpec(b1, n, 1, b2, sp.entry.pml3)
    requires AllocSpec(b2, n, 1, b3, sp.entry.pml2) && AllocSpec(b3, n, 1, b4, sp.entry.pml1)
    requires AllocSpec(b4, n, sp.size, b5, sp.data)
    ensures SmallAllocs(b0, b5, n, sp)
  {
    TablesTaken(b0, b1, b2, b3, n, sp.entry.pml4, sp.entry.pml3, sp.entry.pml2);
    OnePageIsLowest(b3, n, b4, sp.entry.pml1);
    hide AllocSpec, LowestTaken, ThreeTaken;
  }

  lemma LargeCallMade(s: Vm, s': Vm, n: nat, index: nat, sp: Space,
                      b1: seq<bool>, b2: seq<bool>, b3: seq<bool>, m1: seq<u64>)
    requires index < |s.dir| && s.dir[index].pml4 == 0 && s'.dir == s.dir[index := sp.entry]
    requires sp.entry.pml1 == s.dir[index].pml1
    requires 1 <= n <= 0x10_0000 && n <= |s.bits| == |b1| == |b2| && |s.mem| == 512 * n
    requires sp.size <= 512 && sp.entry.flags < PAGESIZE && Large(sp.entry.flags)
    requires AllocSpec(s.bits, n, 1, b1, sp.entry.pml4) && AllocSpec(b1, n, 1, b2, sp.entry.pml3)
    requires AllocSpec(b2, n, 1, b3, sp.entry.pml2) && AllocSpec(b3, n, sp.size * 0x200, s'.bits, sp.data)
    requires sp.entry.pml4 / 8 + 512 <= |s.mem| && sp.entry.pml3 / 8 < |s.mem|
    requires sp.entry.pml3 + 7 < TWO_TO_64 && sp.entry.pml2 + 7 < TWO_TO_64
    requires m1 == TablesLinked(s.mem, sp.entry.pml4, sp.entry.pml3, sp.entry.pml2)
    requires Mapped(m1, s'.mem, sp.entry.pml2, sp.size, sp.data, 0x20_0000, sp.entry.flags)
    ensures LargeCall(s, s', n, index, sp)
  {
    TablesTaken(s.bits, b1, b2, b3, n, sp.entry.pml4, sp.entry.pml3, sp.entry.pml2);
    hide AllocSpec, LowestTaken, ThreeTaken, Mapped, TablesLinked, Large;
  }

  /** What a call comes to: one of the two kinds of call in full; a space, if page 0 is marked, pages are asked for and
      the bitmap before the call affords them; and whatever it comes to, live spaces stay isolated. */
  ghost predicate CallOutcome(s: Vm, s': Vm, n: nat, index: nat, sp: Space) {
    && (if Large(sp.entry.flags) then LargeCall(s, s', n, index, sp) else SmallCall(s, s', n, index, sp))
    && (s.bits[0] && sp.size > 0 && SmallFlags(sp.entry.flags) && Affordable(s.bits, n, sp.size) ==>
          CreateStep(s, s', n, index, sp))
    && (s.bits[0] && sp.size > 0 && Large(sp.entry.flags) && HasRun(ThreeTaken(s.bits, n), n, sp.size * 0x200) ==>
          LargeStep(s, s', n, index, sp))
    && forall live :: Isolated(s, n, live) ==> Isolated(s', n, live)
  }

  lemma SmallCallOutcome(s: Vm, s': Vm, n: nat, index: nat, sp: Space)
    requires SmallCall(s, s', n, index, sp)
    ensures CallOutcome(s, s', n, index, sp)
  {
    assert SmallFlags(sp.entry.flags) ==> !Large(sp.entry.flags);
    hide Isolated, CreateStep, Affordable, SmallFlags, LargeStep, HasRun, ThreeTaken;
    if s.bits[0] && sp.size > 0 && SmallFlags(sp.entry.flags) && Affordable(s.bits, n, sp.size) {
      SmallCallCreates(s, s', n, index, sp);
    }
    SmallCallIsAttempt(s, s', n, index, sp);
    hide Attempt;
    forall live | Isolated(s, n, live) ensures Isolated(s', n, live) {
      AttemptKeepsIsolation(s, s', n, live, index, TableFrames(sp.entry));
    }
  }

  lemma LargeCallOutcome(s: Vm, s': Vm, n: nat, index: nat, sp: Space)
    requires LargeCall(s, s', n, index, sp)
    ensures CallOutcome(s, s', n, index, sp)
  {
    assert SmallFlags(sp.entry.flags) ==> !Large(sp.entry.flags);
    hide Isolated, LargeStep, HasRun, ThreeTaken, SmallFlags, Affordable, CreateStep;
    if s.bits[0] && sp.size > 0 && HasRun(ThreeTaken(s.bits, n), n, sp.size * 0x200) {
      LargeCallCreates(s, s', n, index, sp);
    }
    LargeCallIsAttempt(s, s', n, index, sp);
    hide Attempt;
    forall live | Isolated(s, n, live) ensures Isolated(s', n, live) {
      AttemptKeepsIsolation(s, s', n, live, index, UpperFrames(sp.entry));
    }
  }

  /** Memory after the upper entries of the kernel tables have been written. */
  ghost function LinkedKernel(mem: seq<u64>): (r: seq<u64>)
    requires KTABLES_END / 8 <= |mem|
    ensures |r| == |mem|
  {
    mem[0x4_0100 := KPML3 + 7][0x4_0000 := KPML3 + 7]
       [0x4_0200 := KPML2_1G + 7][0x4_0201 := KPML2_1G + 0x1007]
       [0x4_0202 := KPML2_1G + 0x2007][0x4_0203 := KPML2_1G + 0x3007]
       [0x4_01ff := KPML3_HH + 7][0x4_0ffe := KPML2_HH + 7]
  }

  lemma LinkedKernelIs(before: seq<u64>, mem: seq<u64>)
    requires KernelSoFar(before, mem, false, 0, 2)
    ensures KTABLES_END / 8 <= |mem| && KernelSoFar(before, LinkedKernel(mem), true, 0, 2)
  {
  }

  /** The kernel tables once the upper entries are `linked` and `done` entries of each second-level table are in, and
      one more of those before table `t`; memory outside the eight pages is as it was. */
  ghost predicate KernelSoFar(before: seq<u64>, mem: seq<u64>, linked: bool, done: nat, t: nat) {
    && |mem| == |before| && KTABLES_END / 8 <= |mem|
    && (forall w | 0 <= w < |mem| && !(KPML4 / 8 <= w < KTABLES_END / 8) :: mem[w] == before[w])
    && forall w | KPML4 / 8 <= w < KTABLES_END / 8 ::
         mem[w] == EntrySoFar((w - KPML4 / 8) / 512, (w - KPML4 / 8) % 512, linked, done, t)
  }

  function EntrySoFar(table: nat, i: nat, linked: bool, done: nat, t: nat): nat {
    if 2 <= table <= 6 then if i < done || (i == done && table < t) then KernelEntry(table, i) else 0
    else if linked then KernelEntry(table, i) else 0
  }

  lemma RowDone(before: seq<u64>, mem: seq<u64>, i: nat)
    requires KernelSoFar(before, mem, true, i, 7) && i < 512
    ensures KernelSoFar(before, mem, true, i + 1, 2)
  {
    hide KernelEntry;
    assert forall table, j :: EntrySoFar(table, j, true, i, 7) == EntrySoFar(table, j, true, i + 1, 2);
  }

  lemma KernelTablesDone(before: seq<u64>, mem: seq<u64>)
    requires KernelSoFar(before, mem, true, 512, 2)
    ensures KernelTables(mem)
  {
    forall table, i | 0 <= table < 8 && 0 <= i < 512
      ensures Word(mem, KPML4 + table * 0x1000 + 8 * i) == KernelEntry(table, i)
    {
      var w := KPML4 / 8 + table * 512 + i;
      assert (KPML4 + table * 0x1000 + 8 * i) / 8 == w;
      assert (w - KPML4 / 8) / 512 == table && (w - KPML4 / 8) % 512 == i;
    }
  }

  /** The physical address that entry i of a mapping loop holds. */
  function PageAt(physical: nat, i: nat, stride: nat): nat {
    physical + i * stride
  }

  lemma EntryFits(physical: nat, i: nat, stride: nat, flags: nat)
    requires physical <= 0x1_0000_0000 && i < 512 && stride <= 0x20_0000 && flags < PAGESIZE
    ensures PageAt(physical, i, stride) + flags < TWO_TO_64
  {
    SmallProduct(i, stride);
  }

  lemma SmallProduct(i: nat, stride: nat)
    requires i < 512 && stride <= 0x20_0000
    ensures i * stride <= 512 * 0x20_0000
  {
    assert i * stride <= i * 0x20_0000;
  }

  lemma AlignedSum(a: nat, b: nat)
    requires Aligned(a) && Aligned(b)
    ensures Aligned(a + b)
  {
  }

  lemma PageOr(address: nat, flags: nat)
    requires Aligned(address) && flags < PAGESIZE
    ensures BitOr(address, flags) == address + flags
  {
    hide BitOr;
    OrFlags(address / PAGESIZE, 0, flags);
  }

  lemma NoneMapped(mem: seq<u64>, table: nat, physical: nat, stride: nat, flags: nat)
    requires table / 8 <= |mem|
    ensures Mapped(mem, mem, table, 0, physical, stride, flags) && PageAt(physical, 0, stride) == physical
  {
  }

  /** One more entry written. */
  lemma OneMapped(before: seq<u64>, mem: seq<u64>, table: nat, i: nat, physical: nat, stride: nat, flags: nat)
    requires Aligned(table) && Mapped(before, mem, table, i, physical, stride, flags) && table / 8 + i < |mem|
    requires PageAt(physical, i, stride) + flags < TWO_TO_64
    ensures (table + 8 * i) / 8 == table / 8 + i
    ensures PageAt(physical, i + 1, stride) == PageAt(physical, i, stride) + stride
    ensures var entry: u64 := PageAt(physical, i, stride) + flags;
            Mapped(before, mem[table / 8 + i := entry], table, i + 1, physical, stride, flags)
  {
    var k := table / 8;
    var entry: u64 := physical + i * stride + flags;
    assert (table + 8 * i) / 8 == k + i;
    hide Aligned;
    forall w | 0 <= w < |before| && w != k + i
      ensures mem[w] == if k <= w < k + (i + 1) then physical + (w - k) * stride + flags else before[w]
    {
    }
  }
}
