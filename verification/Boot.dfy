/** Start-up as kernel/kernelMain.c orders it: the page bitmap is filled, the boot stack and the heap are allocated, the
    kernel's page tables are written at a fixed place. What that does for the isolation of address spaces, and when an
    allocation runs into the kernel's tables. */
module Boot {
  import opened Words
  import opened MemUtils
  import opened FirstFit
  import opened PhysicalPages
  import opened PageTables
  import opened AddressSpaces
  import opened SpaceRuns
  import HeapModel

  /* ---- the pages taken ---- */

  /** Memory in which nothing is marked below page 0x235 but the low pages. */
  ghost predicate OrdinaryMap(found: seq<bool>, n: nat) {
    0x235 <= n <= |found| && forall f | 0 <= f < 0x235 :: found[f] <==> f < LOW_PAGES
  }

  /** `initPMM` leaves such a bitmap when no unusable region of the memory map lies between there and the low pages. */
  lemma InitLeavesOrdinaryMap(bits: seq<bool>, entries: seq<MmapEntry>, found: seq<bool>, n: nat)
    requires InitSpec(bits, entries, found) && 0x235 <= n <= |bits|
    requires forall f | 0 <= f < 0x235 :: !bits[f]
    requires forall f | LOW_PAGES <= f < 0x235 :: !MarkedBySome(entries, f)
    ensures OrdinaryMap(found, n)
  {
  }

  /** The pages that start-up takes: four for the stack, 0x100 for the heap, one and sixteen for the heap's tables. */
  ghost predicate BootAllocs(found: seq<bool>, n: nat, bits: seq<bool>) {
    exists b1: seq<bool>, b2: seq<bool>, b3: seq<bool>, stack: nat, heap: nat, kbitmap: nat, table: nat ::
      && AllocSpec(found, n, 4, b1, stack) && AllocSpec(b1, n, 0x100, b2, heap)
      && AllocSpec(b2, n, 1, b3, kbitmap) && AllocSpec(b3, n, 16, bits, table)
  }

  /** The first fit in memory marked up to a page and free for long enough after it. */
  lemma EdgeTaken(bits: seq<bool>, n: nat, lo: nat, top: nat, count: nat, bits': seq<bool>, address: nat)
    requires lo + count <= top <= n <= |bits| && count > 0 && (forall f | 0 <= f < top :: bits[f] <==> f < lo)
    requires AllocSpec(bits, n, count, bits', address)
    ensures address == lo * PAGESIZE && |bits'| == |bits|
    ensures forall f | 0 <= f < top :: bits'[f] <==> f < lo + count
  {
    forall b | 0 <= b < lo ensures !FreeRun(bits, n, b, count) {
      assert bits[b];
    }
    assert FreeRun(bits, n, lo, count) && IsFirstFit(bits, n, count, lo);
    assert address / PAGESIZE == lo;
  }

  /** Where start-up puts the heap, and that its pages are all marked. */
  lemma BootPlaces(found: seq<bool>, n: nat, b1: seq<bool>, b2: seq<bool>, stack: nat, heap: nat)
    requires OrdinaryMap(found, n)
    requires AllocSpec(found, n, 4, b1, stack) && AllocSpec(b1, n, 0x100, b2, heap)
    ensures stack == 0x12_0000 && heap == 0x12_4000 && |b2| == |found|
    ensures forall f | 0 <= f < 0x235 :: b2[f] <==> f < 0x224
  {
    hide AllocSpec;
    EdgeTaken(found, n, LOW_PAGES, 0x235, 4, b1, stack);
    EdgeTaken(b1, n, 0x124, 0x235, 0x100, b2, heap);
  }

  lemma BootMarks(found: seq<bool>, n: nat, bits: seq<bool>)
    requires OrdinaryMap(found, n) && BootAllocs(found, n, bits)
    ensures |bits| == |found| && forall f | 0 <= f < 0x235 :: bits[f]
  {
    var b1: seq<bool>, b2: seq<bool>, b3: seq<bool>, stack: nat, heap: nat, kbitmap: nat, table: nat :|
      && AllocSpec(found, n, 4, b1, stack) && AllocSpec(b1, n, 0x100, b2, heap)
      && AllocSpec(b2, n, 1, b3, kbitmap) && AllocSpec(b3, n, 16, bits, table);
    hide AllocSpec;
    BootPlaces(found, n, b1, b2, stack, heap);
    EdgeTaken(b2, n, 0x224, 0x235, 1, b3, kbitmap);
    EdgeTaken(b3, n, 0x225, 0x235, 16, bits, table);
  }

  /* ---- the start of every run ---- */

  /** Page bitmap, memory and table of spaces as `initVMM` leaves them. */
  ghost predicate Booted(s: Vm, n: nat, found: seq<bool>) {
    && OrdinaryMap(found, n) && BootAllocs(found, n, s.bits) && 512 * n <= |s.mem| && KernelTables(s.mem)
    && forall i | 0 <= i < |s.dir| :: s.dir[i] == NO_ENTRY
  }

  /** With no space yet, isolation is the kernel's tables in place and their pages and page 0 marked. */
  lemma EmptyIsolatedIff(s: Vm, n: nat)
    ensures Isolated(s, n, map[])
            <==> n <= |s.bits| && 512 * n <= |s.mem| && 0x208 <= n && s.bits[0] && KernelTables(s.mem)
                 && forall f | 0x200 <= f < 0x208 :: s.bits[f]
  {
    hide KernelTables;
    assert forall f :: KernelFrame(f) <==> 0x200 <= f < 0x208;
  }

  /** Start-up reaches isolation: the kernel's tables lie in pages that the heap has taken. */
  lemma BootIsIsolated(s: Vm, n: nat, found: seq<bool>)
    requires Booted(s, n, found)
    ensures Isolated(s, n, map[])
  {
    BootMarks(found, n, s.bits);
    hide KernelTables, BootAllocs, Isolated;
    EmptyIsolatedIff(s, n);
  }

  ghost predicate BootRun(ss: seq<Vm>, lives: seq<map<nat, Space>>, cs: seq<Change>, n: nat, found: seq<bool>) {
    SpaceSteps(ss, lives, cs, n) && Booted(ss[0], n, found) && lives[0] == map[]
  }

  /** Every run from start-up keeps all live spaces isolated, and is a run as the translation theorems need it. */
  lemma BootRunIsolates(ss: seq<Vm>, lives: seq<map<nat, Space>>, cs: seq<Change>, n: nat, found: seq<bool>, k: nat)
    requires BootRun(ss, lives, cs, n, found) && k < |ss|
    ensures SpaceRun(ss, lives, cs, n) && Isolated(ss[k], n, lives[k])
  {
    BootIsIsolated(ss[0], n, found);
    hide Isolated, Booted;
    RunIsolates(ss, lives, cs, n, k);
  }

  /* ---- allocations that run into the kernel's tables ---- */

  /** A run of pages or blocks that meets the interval [lo, hi). */
  predicate Meets(base: int, count: nat, lo: int, hi: int) {
    base < hi && lo < base + count
  }

  /** The run that a first-fit search of the bitmap is about to take meets the interval [lo, hi). */
  ghost predicate FirstFitMeets(bits: seq<bool>, n: nat, count: nat, lo: int, hi: int) {
    exists base: nat :: IsFirstFit(bits, n, count, base) && Meets(base, count, lo, hi)
  }

  /** An allocation takes one of the kernel's table pages if and only if the lowest free run of its size meets them:
      nothing but their marks protects them. */
  lemma KernelTablesHandedOutIff(bits: seq<bool>, n: nat, count: nat, bits': seq<bool>, address: nat)
    requires AllocSpec(bits, n, count, bits', address) && n <= |bits| && count > 0
    ensures (exists f :: KernelFrame(f) && f < |bits| && f < |bits'| && bits'[f] && !bits[f])
            <==> FirstFitMeets(bits, n, count, 0x200, 0x208)
  {
    if base: nat :| IsFirstFit(bits, n, count, base) && Meets(base, count, 0x200, 0x208) {
      assert HasRun(bits, n, count) && base == address / PAGESIZE;
      var f := if base < 0x200 then 0x200 else base;
      assert KernelFrame(f) && bits'[f] && !bits[f];
    }
    if f :| KernelFrame(f) && f < |bits| && f < |bits'| && bits'[f] && !bits[f] {
      assert IsFirstFit(bits, n, count, address / PAGESIZE) && Meets(address / PAGESIZE, count, 0x200, 0x208);
    }
  }

  /** One page: the kernel's PML3 is handed out when page 0x201 is the lowest free one. */
  lemma OnePageTakesPml3()
    ensures var bits := seq(0x208, i => i != 0x201);
            && AllocSpec(bits, 0x208, 1, bits[0x201 := true], KPML3) && FirstFitMeets(bits, 0x208, 1, 0x200, 0x208)
  {
    var bits := seq(0x208, i => i != 0x201);
    forall b | 0 <= b < 0x201 ensures !FreeRun(bits, 0x208, b, 1) {
      assert bits[b];
    }
    assert IsFirstFit(bits, 0x208, 1, 0x201) && Meets(0x201, 1, 0x200, 0x208);
    assert HasRun(bits, 0x208, 1);
    assert Fill(bits, 0x201, 1, true) == bits[0x201 := true];
  }

  /** Two pages: a free page below does not help when it is too small a run. */
  lemma TwoPagesTakePml4()
    ensures var bits := seq(0x208, i => i != 0x100 && i != 0x1ff && i != 0x200);
            && AllocSpec(bits, 0x208, 2, bits[0x1ff := true][0x200 := true], 0x1f_f000)
            && FirstFitMeets(bits, 0x208, 2, 0x200, 0x208)
  {
    var bits := seq(0x208, i => i != 0x100 && i != 0x1ff && i != 0x200);
    forall b | 0 <= b < 0x1ff ensures !FreeRun(bits, 0x208, b, 2) {
      assert bits[b] || bits[b + 1];
    }
    assert IsFirstFit(bits, 0x208, 2, 0x1ff) && Meets(0x1ff, 2, 0x200, 0x208);
    assert HasRun(bits, 0x208, 2);
    assert Fill(bits, 0x1ff, 2, true) == bits[0x1ff := true][0x200 := true];
  }

  /** The heap that start-up places at 0x124000 covers the kernel's tables: some byte of a block lies in one of them if
      and only if it is one of the blocks from 0x6e00 on and below 0x7200. */
  lemma HeapBlockInTablesIff(block: nat)
    ensures (exists a: nat :: InBlock(0x12_4000, block, a) && KernelFrame(a / PAGESIZE)) <==> 0x6e00 <= block < 0x7200
  {
    if 0x6e00 <= block < 0x7200 {
      assert InBlock(0x12_4000, block, 0x12_4000 + 32 * block);
    }
  }

  predicate InBlock(begin: nat, block: nat, a: nat) {
    begin + HeapModel.BLOCKSIZE * block <= a < begin + HeapModel.BLOCKSIZE * (block + 1)
  }

  /** A heap allocation of that heap reaches into the kernel's tables if and only if the lowest free run of its size
      does. */
  lemma MallocReachesTablesIff(h: HeapModel.Heap, h': HeapModel.Heap, n: nat, count: nat, base: int)
    requires HeapModel.MallocStep(h, h', n, count, base) && n <= |h.bits| && count > 0
    ensures (exists block: nat, a: nat :: base <= block < base + count && base >= 0
                                          && InBlock(0x12_4000, block, a) && KernelFrame(a / PAGESIZE))
            <==> FirstFitMeets(h.bits, n, count, 0x6e00, 0x7200)
  {
    if b: nat :| IsFirstFit(h.bits, n, count, b) && Meets(b, count, 0x6e00, 0x7200) {
      assert HasRun(h.bits, n, count) && b == base;
      var block := if b < 0x6e00 then 0x6e00 else b;
      HeapBlockInTablesIff(block);
    }
    if block: nat, a: nat :| base <= block < base + count && base >= 0
                             && InBlock(0x12_4000, block, a) && KernelFrame(a / PAGESIZE) {
      HeapBlockInTablesIff(block);
      assert IsFirstFit(h.bits, n, count, base) && Meets(base, count, 0x6e00, 0x7200);
    }
  }
}
