/** Calls of createNewAddressSpace (kernel/mm/virtualPageManager.c) in full, whatever its allocations answer: when one
    succeeds, in terms of the page bitmap before it, and what one that fails does. */
module SpaceCalls {
  import opened Words
  import opened FirstFit
  import opened PhysicalPages
  import opened PageTables
  import opened AddressSpaces

  /* ---- the pages taken ---- */

  ghost function LowestFree(bits: seq<bool>, n: nat, i: nat): (p: nat)
    requires i <= n <= |bits|
    ensures i <= p <= n && (p < n ==> !bits[p]) && forall j | i <= j < p :: bits[j]
    decreases n - i
  {
    if i == n || !bits[i] then i else LowestFree(bits, n, i + 1)
  }

  /** The bitmap once the lowest free page, if there is one, is taken. */
  ghost function LowestTaken(bits: seq<bool>, n: nat): (r: seq<bool>)
    requires n <= |bits|
    ensures |r| == |bits|
  {
    var p := LowestFree(bits, n, 0);
    if p < n then bits[p := true] else bits
  }

  /** The bitmap once the three lowest free pages are taken, as the tables of a new space take them. */
  ghost function ThreeTaken(bits: seq<bool>, n: nat): (r: seq<bool>)
    requires n <= |bits|
    ensures |r| == |bits|
  {
    LowestTaken(LowestTaken(LowestTaken(bits, n), n), n)
  }

  lemma OnePageIsLowest(bits: seq<bool>, n: nat, bits': seq<bool>, address: nat)
    requires AllocSpec(bits, n, 1, bits', address) && n <= |bits|
    ensures bits' == LowestTaken(bits, n)
  {
    forall p | 0 <= p < n ensures FreeRun(bits, n, p, 1) <==> !bits[p] {
    }
    var p := LowestFree(bits, n, 0);
    assert p < n ==> FreeRun(bits, n, p, 1);
    if HasRun(bits, n, 1) {
      assert !bits[address / PAGESIZE];
    }
  }

  ghost function FourTaken(bits: seq<bool>, n: nat): (r: seq<bool>)
    requires n <= |bits|
    ensures |r| == |bits|
  {
    LowestTaken(ThreeTaken(bits, n), n)
  }

  /** A single-page allocation, as a step from one bitmap to the next. */
  lemma OnePageFacts(bits: seq<bool>, n: nat, address: nat)
    requires 1 <= n <= |bits| && AllocSpec(bits, n, 1, LowestTaken(bits, n), address)
    ensures Aligned(address) && address / PAGESIZE < n
    ensures address / PAGESIZE == 0 || !bits[address / PAGESIZE]
    ensures forall f | 0 <= f < |bits| && bits[f] :: LowestTaken(bits, n)[f]
    ensures bits[0] ==> (address != 0 <==> HasRun(bits, n, 1))
  {
  }

  /** What is free once a page is taken was free before. */
  lemma RunBefore(bits: seq<bool>, n: nat, count: nat)
    requires n <= |bits| && HasRun(LowestTaken(bits, n), n, count) && count > 0
    ensures HasRun(bits, n, 1)
  {
    var b :| 0 <= b && FreeRun(LowestTaken(bits, n), n, b, count);
    assert !LowestTaken(bits, n)[b];
    assert FreeRun(bits, n, b, 1);
  }

  /* ---- creations of 4 KiB pages ---- */

  /** Every allocation of a space but possibly the lowest table succeeded. */
  predicate Complete(sp: Space) {
    sp.entry.pml4 != 0 && sp.entry.pml3 != 0 && sp.entry.pml2 != 0 && sp.data != 0
  }

  /** A whole call for pages of 4 KiB: five allocations, one after the other, and the writes, with whatever they
      answered. */
  ghost predicate SmallCall(s: Vm, s': Vm, n: nat, index: nat, sp: Space) {
    && index < |s.dir| && s.dir[index].pml4 == 0 && s'.dir == s.dir[index := sp.entry]
    && 1 <= n <= 0x10_0000 && n <= |s.bits| && |s.mem| == 512 * n
    && sp.size <= 512 && sp.entry.flags < PAGESIZE && !Large(sp.entry.flags)
    && SmallAllocs(s.bits, s'.bits, n, sp) && SmallWrites(s.mem, s'.mem, sp)
  }

  ghost predicate SmallAllocs(bits: seq<bool>, bits': seq<bool>, n: nat, sp: Space)
    requires n <= |bits|
  {
    var b1 := LowestTaken(bits, n);
    var b2 := LowestTaken(b1, n);
    && AllocSpec(bits, n, 1, b1, sp.entry.pml4) && AllocSpec(b1, n, 1, b2, sp.entry.pml3)
    && AllocSpec(b2, n, 1, ThreeTaken(bits, n), sp.entry.pml2)
    && AllocSpec(ThreeTaken(bits, n), n, 1, FourTaken(bits, n), sp.entry.pml1)
    && AllocSpec(FourTaken(bits, n), n, sp.size, bits', sp.data)
  }

  /** Once four pages are taken for the tables, there is a run for the data. */
  ghost predicate Affordable(bits: seq<bool>, n: nat, size: nat)
    requires n <= |bits|
  {
    HasRun(FourTaken(bits, n), n, size)
  }

  /** With page 0 marked, all five allocations succeed if and only if the bitmap before the call affords them. */
  lemma SmallSucceedsIff(bits: seq<bool>, bits': seq<bool>, n: nat, sp: Space)
    requires 1 <= n <= |bits| && SmallAllocs(bits, bits', n, sp) && bits[0] && sp.size > 0
    ensures Complete(sp) && sp.entry.pml1 != 0 <==> Affordable(bits, n, sp.size)
    ensures (sp.entry.pml4 != 0 && sp.entry.pml3 != 0 && sp.entry.pml2 != 0 && sp.entry.pml1 != 0)
            <==> HasRun(ThreeTaken(bits, n), n, 1)
    ensures sp.data != 0 <==> Affordable(bits, n, sp.size)
  {
    var b1 := LowestTaken(bits, n);
    var b2, b3, b4 := LowestTaken(b1, n), ThreeTaken(bits, n), FourTaken(bits, n);
    hide LowestTaken, HasRun;
    OnePageFacts(bits, n, sp.entry.pml4);
    OnePageFacts(b1, n, sp.entry.pml3);
    OnePageFacts(b2, n, sp.entry.pml2);
    OnePageFacts(b3, n, sp.entry.pml1);
    ZeroMeansNoRun(b4, n, sp.size, bits', sp.data);
    hide AllocSpec;
    if HasRun(b4, n, sp.size) {
      RunBefore(b3, n, sp.size);
    }
    if HasRun(b3, n, 1) {
      RunBefore(b2, n, 1);
      RunBefore(b1, n, 1);
      RunBefore(bits, n, 1);
    }
  }

  /** Wherever the tables are put, it is in page 0 or in pages unmarked before; marks are only added. */
  lemma SmallAllocsPlace(bits: seq<bool>, bits': seq<bool>, n: nat, sp: Space)
    requires 1 <= n <= |bits| && SmallAllocs(bits, bits', n, sp)
    ensures TablesFit(sp.entry, n) && Aligned(sp.data) && |bits'| == |bits|
    ensures forall f | 0 <= f < |bits| && bits[f] :: bits'[f]
    ensures forall f | f in TableFrames(sp.entry) :: f == 0 || (0 < f < n && !bits[f])
  {
    var b1 := LowestTaken(bits, n);
    var b2, b3, b4 := LowestTaken(b1, n), ThreeTaken(bits, n), FourTaken(bits, n);
    assert b3 == LowestTaken(b2, n) && b4 == LowestTaken(b3, n);
    hide LowestTaken;
    OnePageFacts(bits, n, sp.entry.pml4);
    OnePageFacts(b1, n, sp.entry.pml3);
    OnePageFacts(b2, n, sp.entry.pml2);
    OnePageFacts(b3, n, sp.entry.pml1);
    OnlyAdds(b4, n, sp.size, bits', sp.data);
    hide AllocSpec, Aligned, ThreeTaken, FourTaken;
  }

  lemma OnlyAdds(bits: seq<bool>, n: nat, count: nat, bits': seq<bool>, address: nat)
    requires AllocSpec(bits, n, count, bits', address) && n <= |bits|
    ensures Aligned(address) && |bits'| == |bits| && forall f | 0 <= f < |bits| && bits[f] :: bits'[f]
    ensures address == 0 || address / PAGESIZE + count <= n
  {
  }

  /** A call that the bitmap affords creates a space. */
  lemma SmallCallCreates(s: Vm, s': Vm, n: nat, index: nat, sp: Space)
    requires SmallCall(s, s', n, index, sp) && s.bits[0] && sp.size > 0 && SmallFlags(sp.entry.flags)
    requires Affordable(s.bits, n, sp.size)
    ensures CreateStep(s, s', n, index, sp)
  {
    hide SmallWrites, Affordable, SmallFlags, CreateStep;
    SmallSucceedsIff(s.bits, s'.bits, n, sp);
    SmallPlaced(s.bits, s'.bits, n, sp);
    hide SmallAllocs;
    PlacedTablesFit(sp, n);
    BuiltByWrites(s.mem, s'.mem, sp, n);
    WritesStayInTables(s.mem, s'.mem, sp, n);
    hide WellPlaced;
    CreateByParts(s, s', n, index, sp);
  }

  lemma SmallPlaced(bits: seq<bool>, bits': seq<bool>, n: nat, sp: Space)
    requires n <= 0x10_0000 && n <= |bits| && SmallAllocs(bits, bits', n, sp)
    requires Complete(sp) && sp.entry.pml1 != 0 && SmallFlags(sp.entry.flags) && 1 <= sp.size <= 512
    ensures WellPlaced(sp, n) && Grown(bits, bits', n, Frames(sp))
  {
    var b1 := LowestTaken(bits, n);
    hide AllocSpec, WellPlaced, Grown, LowestTaken;
    PlacedByAllocSpecs(bits, b1, LowestTaken(b1, n), ThreeTaken(bits, n), FourTaken(bits, n), bits', n, sp);
  }

  lemma CreateByParts(s: Vm, s': Vm, n: nat, index: nat, sp: Space)
    requires index < |s.dir| && s.dir[index].pml4 == 0 && s'.dir == s.dir[index := sp.entry]
    requires WellPlaced(sp, n) && Grown(s.bits, s'.bits, n, Frames(sp)) && |s'.mem| == |s.mem| && Built(s'.mem, sp)
    requires forall w | 0 <= w < |s.mem| && w / 512 !in TableFrames(sp.entry) :: s'.mem[w] == s.mem[w]
    ensures CreateStep(s, s', n, index, sp)
  {
    hide WellPlaced, Built, TableFrames, Frames;
  }

  lemma PlacedByAllocSpecs(b0: seq<bool>, b1: seq<bool>, b2: seq<bool>, b3: seq<bool>, b4: seq<bool>, b5: seq<bool>,
                           n: nat, sp: Space)
    requires AllocSpec(b0, n, 1, b1, sp.entry.pml4) && AllocSpec(b1, n, 1, b2, sp.entry.pml3)
    requires AllocSpec(b2, n, 1, b3, sp.entry.pml2) && AllocSpec(b3, n, 1, b4, sp.entry.pml1)
    requires AllocSpec(b4, n, sp.size, b5, sp.data)
    requires Complete(sp) && sp.entry.pml1 != 0 && SmallFlags(sp.entry.flags) && 1 <= sp.size <= 512
    requires n <= 0x10_0000 && n <= |b0|
    ensures WellPlaced(sp, n) && Grown(b0, b5, n, Frames(sp))
  {
    AllocGave(b0, b1, n, 1, sp.entry.pml4);
    AllocGave(b1, b2, n, 1, sp.entry.pml3);
    AllocGave(b2, b3, n, 1, sp.entry.pml2);
    AllocGave(b3, b4, n, 1, sp.entry.pml1);
    AllocGave(b4, b5, n, sp.size, sp.data);
    hide AllocSpec, Gave, WellPlaced, Grown;
    PlacedByAllocs(b0, b1, b2, b3, b4, b5, n, sp);
  }

  /* ---- what a call may touch ---- */

  /** Whatever a creation does: one empty slot is filled, marks are only added, and of memory only page 0 and pages
      unmarked before are written. */
  ghost predicate Attempt(s: Vm, s': Vm, n: nat, index: nat, written: set<int>) {
    && index < |s.dir| && s.dir[index].pml4 == 0 && |s'.dir| == |s.dir|
    && (forall i | 0 <= i < |s.dir| && i != index :: s'.dir[i] == s.dir[i])
    && |s'.bits| == |s.bits| && |s'.mem| == |s.mem| && n <= |s.bits|
    && (forall f | 0 <= f < |s.bits| && s.bits[f] :: s'.bits[f])
    && (forall f | f in written :: f == 0 || (0 < f < n && !s.bits[f]))
    && forall w | 0 <= w < |s.mem| && w / 512 !in written :: s'.mem[w] == s.mem[w]
  }

  lemma SmallCallIsAttempt(s: Vm, s': Vm, n: nat, index: nat, sp: Space)
    requires SmallCall(s, s', n, index, sp)
    ensures Attempt(s, s', n, index, TableFrames(sp.entry))
  {
    hide SmallWrites, TableFrames;
    SmallAllocsPlace(s.bits, s'.bits, n, sp);
    hide SmallAllocs;
    WritesStayInTables(s.mem, s'.mem, sp, n);
  }

  /** No creation, successful or not, disturbs a live space or the kernel's tables. */
  lemma AttemptKeepsIsolation(s: Vm, s': Vm, n: nat, live: map<nat, Space>, index: nat, written: set<int>)
    requires Isolated(s, n, live) && Attempt(s, s', n, index, written)
    ensures index !in live && ElsewhereStep(s, s', live) && Isolated(s', n, live)
  {
    hide Isolated, TableInUse, FrameInUse, SamePage;
    forall i | i in live ensures i < |s.dir| && i != index {
      LiveSlotIsTaken(s, n, live, i);
    }
    forall f: nat | TableInUse(live, f) && 512 * f + 512 <= |s.mem| ensures SamePage(s.mem, s'.mem, f) {
      TableIsMarked(s, n, live, f);
      assert f !in written;
      PageOutside(s.mem, s'.mem, f, written);
    }
    ElsewhereKeepsIsolation(s, s', n, live);
  }

  lemma PageOutside(mem: seq<u64>, mem': seq<u64>, f: nat, written: set<int>)
    requires |mem'| == |mem| && f !in written && 512 * f + 512 <= |mem|
    requires forall w | 0 <= w < |mem| && w / 512 !in written :: mem'[w] == mem[w]
    ensures SamePage(mem, mem', f)
  {
    forall w | 512 * f <= w < 512 * f + 512 ensures mem'[w] == mem[w] {
      assert w / 512 == f;
    }
  }

  /** After a call for small pages from an isolated state, the live spaces are isolated; they are so together with the
      new one if and only if the bitmap before the call affords it. */
  lemma NewSpaceIsolatedIff(s: Vm, s': Vm, n: nat, live: map<nat, Space>, index: nat, sp: Space)
    requires Isolated(s, n, live) && SmallCall(s, s', n, index, sp) && sp.size > 0 && SmallFlags(sp.entry.flags)
    ensures index !in live && Isolated(s', n, live)
    ensures Isolated(s', n, live[index := sp]) <==> Affordable(s.bits, n, sp.size)
  {
    var more := live[index := sp];
    SmallCallIsAttempt(s, s', n, index, sp);
    AttemptKeepsIsolation(s, s', n, live, index, TableFrames(sp.entry));
    PageZeroMarked(s, n, live);
    SmallSucceedsIff(s.bits, s'.bits, n, sp);
    hide SmallAllocs, Isolated, Affordable, SmallFlags, Attempt, ElsewhereStep, SmallWrites;
    if Affordable(s.bits, n, sp.size) {
      SmallCallCreates(s, s', n, index, sp);
      CreateKeepsIsolation(s, s', n, live, index, sp);
    }
    if Isolated(s', n, more) {
      LiveParts(s', n, more, index);
      PlacedIsComplete(sp, n);
    }
  }

  lemma PageZeroMarked(s: Vm, n: nat, live: map<nat, Space>)
    requires Isolated(s, n, live)
    ensures |s.bits| > 0 && s.bits[0]
  {
  }

  lemma PlacedIsComplete(sp: Space, n: nat)
    requires WellPlaced(sp, n)
    ensures Complete(sp) && sp.entry.pml1 != 0
  {
    var e := sp.entry;
    assert e.pml4 / PAGESIZE in Frames(sp) && e.pml3 / PAGESIZE in Frames(sp);
    assert e.pml2 / PAGESIZE in Frames(sp) && e.pml1 / PAGESIZE in Frames(sp) && sp.data / PAGESIZE in Frames(sp);
  }

  /* ---- a creation that runs out of memory ---- */

  /** When there are pages for the tables but no run for the data, the call reports nothing and leaves a space whose
      user range is mapped to itself: page 0 and what lies above it. */
  lemma UnaffordableMapsLowMemory(s: Vm, s': Vm, n: nat, index: nat, sp: Space, v: u64)
    requires SmallCall(s, s', n, index, sp) && s.bits[0] && sp.size > 0 && SmallFlags(sp.entry.flags)
    requires HasRun(ThreeTaken(s.bits, n), n, 1) && !Affordable(s.bits, n, sp.size)
    requires v < sp.size * PAGESIZE
    ensures Walk(s'.mem, sp.entry.pml4, v) == MapsTo(v)
  {
    hide SmallWrites, Affordable, SmallFlags, Walk, HasRun;
    SmallSucceedsIff(s.bits, s'.bits, n, sp);
    SmallAllocsPlace(s.bits, s'.bits, n, sp);
    TablesAreApart(s.bits, s'.bits, n, sp);
    hide SmallAllocs, ThreeTaken;
    BuiltByWrites(s.mem, s'.mem, sp, n);
    assert sp.data == 0;
    hide Built, TablesApart, TableFrames;
    UserWalk(s'.mem, sp, v);
  }

  lemma TablesAreApart(bits: seq<bool>, bits': seq<bool>, n: nat, sp: Space)
    requires n <= |bits| && SmallAllocs(bits, bits', n, sp)
    requires sp.entry.pml4 != 0 && sp.entry.pml3 != 0 && sp.entry.pml2 != 0 && sp.entry.pml1 != 0
    ensures TablesApart(sp.entry)
  {
    var b1 := LowestTaken(bits, n);
    var b2, b3, b4 := LowestTaken(b1, n), ThreeTaken(bits, n), FourTaken(bits, n);
    AllocGave(bits, b1, n, 1, sp.entry.pml4);
    AllocGave(b1, b2, n, 1, sp.entry.pml3);
    AllocGave(b2, b3, n, 1, sp.entry.pml2);
    AllocGave(b3, b4, n, 1, sp.entry.pml1);
    hide AllocSpec, Gave, LowestTaken, ThreeTaken, FourTaken;
    FourPages(bits, b1, b2, b3, b4, n, sp.entry.pml4, sp.entry.pml3, sp.entry.pml2, sp.entry.pml1);
  }

  /** Such a bitmap: exactly four pages are free. */
  lemma FourFreePages()
    ensures var bits := seq(0x300, i => i < 0x2fc);
            && bits[0] && HasRun(ThreeTaken(bits, 0x300), 0x300, 1) && !Affordable(bits, 0x300, 1)
  {
    var bits := seq(0x300, i => i < 0x2fc);
    EdgeMoves(bits, 0x300, 0x2fc);
    EdgeMoves(LowestTaken(bits, 0x300), 0x300, 0x2fd);
    EdgeMoves(LowestTaken(LowestTaken(bits, 0x300), 0x300), 0x300, 0x2fe);
    EdgeMoves(ThreeTaken(bits, 0x300), 0x300, 0x2ff);
    assert FreeRun(ThreeTaken(bits, 0x300), 0x300, 0x2ff, 1);
    hide ThreeTaken, LowestTaken;
    forall b | 0 <= b ensures !FreeRun(FourTaken(bits, 0x300), 0x300, b, 1) {
      assert b < 0x300 ==> FourTaken(bits, 0x300)[b];
    }
  }

  lemma EdgeMoves(bits: seq<bool>, n: nat, lo: nat)
    requires lo < n <= |bits| && (forall i | 0 <= i < n :: bits[i] <==> i < lo)
    ensures forall i | 0 <= i < n :: LowestTaken(bits, n)[i] <==> i < lo + 1
  {
    var p := LowestFree(bits, n, 0);
    assert !bits[lo];
    assert p == lo;
  }

  /* ---- creations of 2 MiB pages ---- */

  /** A whole call for pages of 2 MiB; the address of the lowest table is left as it was. */
  ghost predicate LargeCall(s: Vm, s': Vm, n: nat, index: nat, sp: Space) {
    && index < |s.dir| && s.dir[index].pml4 == 0 && s'.dir == s.dir[index := sp.entry]
    && sp.entry.pml1 == s.dir[index].pml1
    && 1 <= n <= 0x10_0000 && n <= |s.bits| && |s.mem| == 512 * n
    && sp.size <= 512 && sp.entry.flags < PAGESIZE && Large(sp.entry.flags)
    && LargeAllocs(s.bits, s'.bits, n, sp) && LargeWrites(s.mem, s'.mem, sp)
  }

  ghost predicate LargeAllocs(bits: seq<bool>, bits': seq<bool>, n: nat, sp: Space)
    requires n <= |bits|
  {
    var b1 := LowestTaken(bits, n);
    var b2 := LowestTaken(b1, n);
    && AllocSpec(bits, n, 1, b1, sp.entry.pml4) && AllocSpec(b1, n, 1, b2, sp.entry.pml3)
    && AllocSpec(b2, n, 1, ThreeTaken(bits, n), sp.entry.pml2)
    && AllocSpec(ThreeTaken(bits, n), n, sp.size * 0x200, bits', sp.data)
  }

  ghost predicate LargeWrites(mem: seq<u64>, mem': seq<u64>, sp: Space) {
    var e := sp.entry;
    && e.pml4 / 8 + 512 <= |mem| && e.pml3 / 8 < |mem|
    && e.pml3 + 7 < TWO_TO_64 && e.pml2 + 7 < TWO_TO_64
    && Mapped(TablesLinked(mem, e.pml4, e.pml3, e.pml2), mem', e.pml2, sp.size, sp.data, 0x20_0000, e.flags)
  }

  /** With page 0 marked, the four allocations succeed if and only if the bitmap has a run for the data once three
      pages are taken. */
  lemma LargeSucceedsIff(bits: seq<bool>, bits': seq<bool>, n: nat, sp: Space)
    requires 1 <= n <= |bits| && LargeAllocs(bits, bits', n, sp) && bits[0] && sp.size > 0
    ensures Complete(sp) <==> HasRun(ThreeTaken(bits, n), n, sp.size * 0x200)
  {
    var b1 := LowestTaken(bits, n);
    var b2, b3 := LowestTaken(b1, n), ThreeTaken(bits, n);
    hide LowestTaken, HasRun;
    OnePageFacts(bits, n, sp.entry.pml4);
    OnePageFacts(b1, n, sp.entry.pml3);
    OnePageFacts(b2, n, sp.entry.pml2);
    ZeroMeansNoRun(b3, n, sp.size * 0x200, bits', sp.data);
    hide AllocSpec;
    if HasRun(b3, n, sp.size * 0x200) {
      RunBefore(b2, n, sp.size * 0x200);
      RunBefore(b1, n, 1);
      RunBefore(bits, n, 1);
    }
  }

  ghost function UpperFrames(e: PageDirectoryEntry): set<int> {
    {e.pml4 / PAGESIZE, e.pml3 / PAGESIZE, e.pml2 / PAGESIZE}
  }

  lemma LargeCallIsAttempt(s: Vm, s': Vm, n: nat, index: nat, sp: Space)
    requires LargeCall(s, s', n, index, sp)
    ensures Attempt(s, s', n, index, UpperFrames(sp.entry))
  {
    hide LargeWrites;
    LargeAllocsPlace(s.bits, s'.bits, n, sp);
    hide LargeAllocs;
    LargeWritesStay(s.mem, s'.mem, sp, n);
  }

  lemma LargeAllocsPlace(bits: seq<bool>, bits': seq<bool>, n: nat, sp: Space)
    requires 1 <= n <= |bits| && LargeAllocs(bits, bits', n, sp)
    ensures Aligned(sp.entry.pml4) && Aligned(sp.entry.pml3) && Aligned(sp.entry.pml2) && |bits'| == |bits|
    ensures sp.entry.pml4 / PAGESIZE < n && sp.entry.pml3 / PAGESIZE < n && sp.entry.pml2 / PAGESIZE < n
    ensures forall f | 0 <= f < |bits| && bits[f] :: bits'[f]
    ensures forall f | f in UpperFrames(sp.entry) :: f == 0 || (0 < f < n && !bits[f])
  {
    var b1 := LowestTaken(bits, n);
    var b2, b3 := LowestTaken(b1, n), ThreeTaken(bits, n);
    assert b3 == LowestTaken(b2, n);
    hide LowestTaken;
    OnePageFacts(bits, n, sp.entry.pml4);
    OnePageFacts(b1, n, sp.entry.pml3);
    OnePageFacts(b2, n, sp.entry.pml2);
    OnlyAdds(b3, n, sp.size * 0x200, bits', sp.data);
    hide AllocSpec, Aligned, ThreeTaken;
  }

  lemma LargeWritesStay(mem: seq<u64>, mem': seq<u64>, sp: Space, n: nat)
    requires LargeWrites(mem, mem', sp) && 512 * n <= |mem| && sp.size <= 512
    requires Aligned(sp.entry.pml4) && Aligned(sp.entry.pml3) && Aligned(sp.entry.pml2)
    requires sp.entry.pml4 / PAGESIZE < n && sp.entry.pml3 / PAGESIZE < n && sp.entry.pml2 / PAGESIZE < n
    ensures |mem'| == |mem| && forall w | 0 <= w < |mem| && w / 512 !in UpperFrames(sp.entry) :: mem'[w] == mem[w]
  {
    var e := sp.entry;
    TablesInMemory(e.(pml1 := e.pml2), n, |mem|);
    hide Aligned;
    var m1 := TablesLinked(mem, e.pml4, e.pml3, e.pml2);
    MappedByPage(m1, mem', e.pml2, sp.size, sp.data, 0x20_0000, e.flags);
    LinkedByPage(mem, e.pml4, e.pml3, e.pml2);
    hide Mapped, TablesLinked;
    var f4, f3, f2 := e.pml4 / PAGESIZE, e.pml3 / PAGESIZE, e.pml2 / PAGESIZE;
    var kept := m1[512 * f2];
    WritesOutside(mem, m1[512 * f2 := kept], mem', f4, f3, f2, f2, e.pml3 + 7, e.pml2 + 7, kept, sp.size);
  }
}
