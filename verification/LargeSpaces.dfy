/** Address spaces of 2 MiB pages (kernel/mm/virtualPageManager.c, lines 57 to 63): what creating one does, when it is
    right, and what freeing one does to page 0. */
module LargeSpaces {
  import opened Words
  import opened FirstFit
  import opened PhysicalPages
  import opened PageTables
  import opened AddressSpaces
  import opened SpaceCalls

  /** The entries of a space of 2 MiB pages. */
  ghost predicate BuiltLarge(mem: seq<u64>, e: PageDirectoryEntry, data: nat, size: nat) {
    && Word(mem, e.pml4) == e.pml3 + 7 && Word(mem, e.pml3) == e.pml2 + 7
    && forall i | 0 <= i < size :: Word(mem, e.pml2 + 8 * i) == data + i * 0x20_0000 + e.flags
  }

  ghost function LargeFrames(sp: Space): set<int> {
    {sp.entry.pml4 / PAGESIZE, sp.entry.pml3 / PAGESIZE, sp.entry.pml2 / PAGESIZE}
    + Interval(sp.data / PAGESIZE, sp.size * 0x200)
  }

  /** The creation of a space of 2 MiB pages: three tables and the data, all unmarked before, the data on the first fit
      above the tables; the lowest table's address left as it was; the kernel's mappings imported; no other page and no
      other slot touched. */
  ghost predicate LargeStep(s: Vm, s': Vm, n: nat, index: nat, sp: Space) {
    && index < |s.dir| && s.dir[index].pml4 == 0 && s'.dir == s.dir[index := sp.entry]
    && sp.entry.pml1 == s.dir[index].pml1 && sp.entry.flags < PAGESIZE && Large(sp.entry.flags)
    && n <= 0x10_0000 && n <= |s.bits| && 1 <= sp.size <= 512
    && Aligned(sp.entry.pml4) && Aligned(sp.entry.pml3) && Aligned(sp.entry.pml2) && Aligned(sp.data)
    && IsFirstFit(ThreeTaken(s.bits, n), n, sp.size * 0x200, sp.data / PAGESIZE)
    && Grown(s.bits, s'.bits, n, LargeFrames(sp))
    && |s'.mem| == |s.mem| && BuiltLarge(s'.mem, sp.entry, sp.data, sp.size)
    && Word(s'.mem, sp.entry.pml4 + 8 * 256) == KPML3 + 7 && Word(s'.mem, sp.entry.pml4 + 8 * 511) == KPML3_HH + 7
    && forall w | 0 <= w < |s.mem| && w / 512 !in LargeFrames(sp) :: s'.mem[w] == s.mem[w]
  }

  /** Creating a space of 2 MiB pages disturbs no live space of 4 KiB pages. */
  lemma LargeStepKeepsIsolation(s: Vm, s': Vm, n: nat, live: map<nat, Space>, index: nat, sp: Space)
    requires Isolated(s, n, live) && LargeStep(s, s', n, index, sp)
    ensures index !in live && Isolated(s', n, live)
  {
    hide Isolated, Grown, BuiltLarge, Word, LargeFrames, TableInUse, FrameInUse, SamePage;
    forall i | i in live ensures i < |s.dir| && i != index {
      LiveSlotIsTaken(s, n, live, i);
    }
    LargeSparesFrames(s, s', n, live, index, sp);
    ElsewhereKeepsIsolation(s, s', n, live);
  }

  lemma LargeSparesFrames(s: Vm, s': Vm, n: nat, live: map<nat, Space>, index: nat, sp: Space)
    requires Isolated(s, n, live) && LargeStep(s, s', n, index, sp)
    ensures |s'.bits| == |s.bits| && forall f | 0 <= f < |s.bits| && s.bits[f] :: s'.bits[f]
    ensures forall f: nat | TableInUse(live, f) && 512 * f + 512 <= |s.mem| :: SamePage(s.mem, s'.mem, f)
  {
    hide Isolated, BuiltLarge, Word, LargeFrames;
    forall f: nat | TableInUse(live, f) && 512 * f + 512 <= |s.mem| ensures SamePage(s.mem, s'.mem, f) {
      TableIsMarked(s, n, live, f);
      assert f !in LargeFrames(sp);
      forall w | 512 * f <= w < 512 * f + 512 ensures s'.mem[w] == s.mem[w] {
        assert w / 512 == f;
      }
    }
  }

  /** Three single pages and a run for the data, allocated one after the other, place a large space. */
  lemma LargePlaced(b0: seq<bool>, b1: seq<bool>, b2: seq<bool>, b3: seq<bool>, b4: seq<bool>, n: nat, sp: Space)
    requires Gave(b0, b1, n, 1, sp.entry.pml4) && Gave(b1, b2, n, 1, sp.entry.pml3) && Gave(b2, b3, n, 1, sp.entry.pml2)
    requires Gave(b3, b4, n, sp.size * 0x200, sp.data)
    ensures Grown(b0, b4, n, LargeFrames(sp))
    ensures var f4, f3, f2 := sp.entry.pml4 / PAGESIZE, sp.entry.pml3 / PAGESIZE, sp.entry.pml2 / PAGESIZE;
            f4 != f3 && f4 != f2 && f3 != f2 && f4 < n && f3 < n && f2 < n
    ensures Aligned(sp.entry.pml4) && Aligned(sp.entry.pml3) && Aligned(sp.entry.pml2)
  {
    var f4, f3, f2 := sp.entry.pml4 / PAGESIZE, sp.entry.pml3 / PAGESIZE, sp.entry.pml2 / PAGESIZE;
    assert n <= |b0|;
    hide Grown, Gave, Aligned;
    GrownByPage(b0, b0, b1, n, {}, sp.entry.pml4);
    assert {} + {f4} == {f4};
    GrownByPage(b0, b1, b2, n, {f4}, sp.entry.pml3);
    assert {f4} + {f3} == {f4, f3};
    GrownByPage(b0, b2, b3, n, {f4, f3}, sp.entry.pml2);
    assert {f4, f3} + {f2} == {f4, f3, f2};
    GrownPositive(b0, b3, n, {f4, f3, f2});
    GrownBy(b0, b3, b4, n, {f4, f3, f2}, sp.size * 0x200, sp.data);
  }

  /** A 2 MiB entry whose frame is off its alignment never translates to that frame. */
  lemma LargeEntryAlignment(physical: nat, flags: nat, v: u64)
    requires Aligned(physical) && physical < 0x1_8000_0000 && flags < PAGESIZE && Present(flags) && Large(flags)
    ensures var e := physical + flags;
            && Present(e) && Large(e)
            && (physical % 0x20_0000 == 0 ==> ReservedClear(e, 0x100) && LargeFrameOf(e) == physical)
            && (physical % 0x20_0000 != 0 ==> LargeFrameOf(e) != physical)
  {
    var q, r := physical / 0x20_0000, physical / PAGESIZE % 512;
    assert physical == q * 0x20_0000 + r * PAGESIZE;
    EntryParts(r, flags);
    LargeEntryParts(q, r * PAGESIZE + flags);
    FrameQuotients(q, r * PAGESIZE);
    hide Aligned, Present, Large, ReservedClear, LargeFrameOf;
  }

  lemma LargeWalk(mem: seq<u64>, e: PageDirectoryEntry, data: nat, size: nat, v: u64)
    requires BuiltLarge(mem, e, data, size) && size <= 512 && v < size * 0x20_0000
    requires Aligned(e.pml3) && Aligned(e.pml2) && Aligned(data)
    requires e.pml3 < 0x1_0000_0000 && e.pml2 < 0x1_0000_0000 && data < 0x1_0000_0000
    requires e.flags < PAGESIZE && Present(e.flags) && Large(e.flags)
    ensures data % 0x20_0000 == 0 ==> Walk(mem, e.pml4, v) == MapsTo(data + v)
    ensures data % 0x20_0000 != 0 ==> Walk(mem, e.pml4, v) != MapsTo(data + v)
  {
    var i := v / 0x20_0000;
    hide Index4, Index3, Index2, Canonical, Walk, Walk3, Walk2, SmallFlags, Present, Large, Word, Aligned, BuiltLarge;
    EntryOf(mem, e, data, size, i);
    LargeIndices(v);
    AlignedPage(e.pml3);
    AlignedPage(e.pml2);
    WalkDown4(mem, e.pml4, v, e.pml3 / PAGESIZE);
    WalkDown3(mem, e.pml3, v, e.pml2 / PAGESIZE);
    LargeStride(data, i);
    hide WellPlaced, Built;
    assert v == i * 0x20_0000 + v % 0x20_0000;
    LargeLeaf(mem, e.pml2, v, data + i * 0x20_0000, e.flags);
  }

  lemma EntryOf(mem: seq<u64>, e: PageDirectoryEntry, data: nat, size: nat, i: nat)
    requires BuiltLarge(mem, e, data, size) && i < size
    ensures Word(mem, e.pml4) == e.pml3 + 7 && Word(mem, e.pml3) == e.pml2 + 7
    ensures Word(mem, e.pml2 + 8 * i) == data + i * 0x20_0000 + e.flags
  {
  }

  lemma AlignedPage(a: nat)
    requires Aligned(a) && a < 0x1_0000_0000
    ensures a == a / PAGESIZE * PAGESIZE && a / PAGESIZE < 0x10_0000
  {
  }

  lemma LargeLeaf(mem: seq<u64>, pml2: nat, v: u64, physical: nat, flags: nat)
    requires Word(mem, pml2 + 8 * Index2(v)) == physical + flags
    requires Aligned(physical) && physical < 0x1_8000_0000 && flags < PAGESIZE && Present(flags) && Large(flags)
    ensures physical % 0x20_0000 == 0 ==> Walk2(mem, pml2, v) == MapsTo(physical + v % 0x20_0000)
    ensures physical % 0x20_0000 != 0 ==> Walk2(mem, pml2, v) != MapsTo(physical + v % 0x20_0000)
  {
    LargeEntryAlignment(physical, flags, v);
    hide Index2, Present, Large, ReservedClear, LargeFrameOf, Word;
  }

  lemma LargeIndices(v: u64)
    requires v < 512 * 0x20_0000
    ensures Index4(v) == 0 && Index3(v) == 0 && Index2(v) == v / 0x20_0000 && Canonical(v)
  {
  }

  lemma LargeStride(data: nat, i: nat)
    requires Aligned(data) && i < 512
    ensures Aligned(data + i * 0x20_0000) && (data + i * 0x20_0000) % 0x20_0000 == data % 0x20_0000
  {
  }

  /** Byte v of the space lies in this page. */
  predicate ByteInPage(sp: Space, page: int, v: nat) {
    v < sp.size * 0x20_0000 && (sp.data + v) / PAGESIZE == page
  }

  /** The pages newly marked by the creation of a large space are those of its three tables and exactly those that its
      bytes lie in. */
  lemma LargePagesExact(s: Vm, s': Vm, n: nat, index: nat, sp: Space, page: nat)
    requires LargeStep(s, s', n, index, sp) && page < |s.bits|
    ensures |s'.bits| == |s.bits|
    ensures s'.bits[page] && !s.bits[page]
            <==> page == sp.entry.pml4 / PAGESIZE || page == sp.entry.pml3 / PAGESIZE
                 || page == sp.entry.pml2 / PAGESIZE || exists v :: ByteInPage(sp, page, v)
  {
    hide BuiltLarge, Word, ThreeTaken, IsFirstFit, Large;
    PagesOfData(sp, page);
  }

  lemma PagesOfData(sp: Space, page: int)
    requires Aligned(sp.data)
    ensures page in Interval(sp.data / PAGESIZE, sp.size * 0x200) <==> exists v :: ByteInPage(sp, page, v)
  {
    var first := sp.data / PAGESIZE;
    if first <= page < first + sp.size * 0x200 {
      assert ByteInPage(sp, page, (page - first) * PAGESIZE);
    }
    if v: nat :| ByteInPage(sp, page, v) {
      assert (sp.data + v) / PAGESIZE == first + v / PAGESIZE;
    }
  }

  /* ---- when a large space is right ---- */

  /** Every address of the space translates to its data. */
  ghost predicate RightEverywhere(mem: seq<u64>, sp: Space) {
    forall v: u64 | v < sp.size * 0x20_0000 :: Walk(mem, sp.entry.pml4, v) == MapsTo(sp.data + v)
  }

  /** A first fit of `count` pages exists and starts on a 2 MiB boundary. */
  ghost predicate FirstFitAligned(bits: seq<bool>, n: nat, count: nat) {
    exists base: nat :: IsFirstFit(bits, n, count, base) && base % 512 == 0
  }

  lemma FirstFitUnique(bits: seq<bool>, n: nat, count: nat, x: nat, y: nat)
    requires IsFirstFit(bits, n, count, x) && IsFirstFit(bits, n, count, y)
    ensures x == y
  {
  }

  /** The places of a large space, in the form its translation needs. */
  lemma LargeParts(s: Vm, s': Vm, n: nat, index: nat, sp: Space)
    requires LargeStep(s, s', n, index, sp)
    ensures BuiltLarge(s'.mem, sp.entry, sp.data, sp.size) && 1 <= sp.size <= 512
    ensures Aligned(sp.entry.pml3) && Aligned(sp.entry.pml2) && Aligned(sp.data)
    ensures sp.entry.pml3 < 0x1_0000_0000 && sp.entry.pml2 < 0x1_0000_0000 && sp.data < 0x1_0000_0000
    ensures sp.entry.flags < PAGESIZE && Large(sp.entry.flags)
    ensures FirstFitAligned(ThreeTaken(s.bits, n), n, sp.size * 0x200) <==> sp.data % 0x20_0000 == 0
  {
    hide BuiltLarge, Word, ThreeTaken, Aligned, Large;
    var base := sp.data / PAGESIZE;
    assert sp.entry.pml3 / PAGESIZE in LargeFrames(sp) && sp.entry.pml2 / PAGESIZE in LargeFrames(sp);
    BelowFourGiB(sp.entry.pml3, n);
    BelowFourGiB(sp.entry.pml2, n);
    BelowFourGiB(sp.data, n);
    AlignedByPage(sp.data);
    assert base < n by {
      assert base + sp.size * 0x200 <= n;
    }
    if other: nat :| IsFirstFit(ThreeTaken(s.bits, n), n, sp.size * 0x200, other) && other % 512 == 0 {
      FirstFitUnique(ThreeTaken(s.bits, n), n, sp.size * 0x200, base, other);
    }
  }

  lemma BelowFourGiB(address: nat, n: nat)
    requires n <= 0x10_0000
    ensures address / PAGESIZE < n ==> address < 0x1_0000_0000
  {
  }

  lemma AlignedByPage(address: nat)
    requires Aligned(address)
    ensures address % 0x20_0000 == 0 <==> address / PAGESIZE % 512 == 0
  {
    var page := address / PAGESIZE;
    assert address == page * PAGESIZE && page == page / 512 * 512 + page % 512;
  }

  /** A large space too translates the kernel's range as the kernel does. */
  lemma LargeKernelWalk(s: Vm, s': Vm, n: nat, index: nat, sp: Space, v: u64)
    requires LargeStep(s, s', n, index, sp) && KernelTables(s'.mem) && (Index4(v) == 256 || Index4(v) == 511)
    ensures Walk(s'.mem, sp.entry.pml4, v) == Walk(s'.mem, KPML4, v) == KernelMap(v)
  {
    hide IsFirstFit, ThreeTaken, Grown, BuiltLarge, LargeFrames, Aligned, Large;
    hide Word, Index4, KernelTables, KernelMap, Walk;
    SameTopEntry(s'.mem, sp.entry.pml4, v);
  }

  /** Without the present flag address 0 is not mapped. */
  lemma AbsentUnmapped(mem: seq<u64>, e: PageDirectoryEntry, data: nat, size: nat)
    requires BuiltLarge(mem, e, data, size) && 1 <= size
    requires Aligned(e.pml3) && Aligned(e.pml2) && Aligned(data)
    requires e.pml3 < 0x1_0000_0000 && e.pml2 < 0x1_0000_0000 && data < 0x1_0000_0000
    requires e.flags < PAGESIZE && !Present(e.flags)
    ensures Walk(mem, e.pml4, 0) == Unmapped
  {
    hide Walk, Walk3, Word, Index4, Index3, Canonical, Large;
    LargeIndices(0);
    AlignedPage(e.pml3);
    AlignedPage(e.pml2);
    AlignedPage(data);
    WalkDown4(mem, e.pml4, 0, e.pml3 / PAGESIZE);
    WalkDown3(mem, e.pml3, 0, e.pml2 / PAGESIZE);
    assert Word(mem, e.pml2 + 8 * 0) == data + 0 * 0x20_0000 + e.flags;
    EntryParts(data / PAGESIZE, e.flags);
  }

  /** A new space of 2 MiB pages translates all its addresses to its data if and only if the flags ask for present
      pages and, once the three lowest free pages are taken, the first fit of its data starts on a 2 MiB boundary:
      a condition on the flags and the page bitmap before the call, which the allocator does nothing to bring about. */
  lemma LargeSpaceRightIff(s: Vm, s': Vm, n: nat, index: nat, sp: Space)
    requires LargeStep(s, s', n, index, sp)
    ensures RightEverywhere(s'.mem, sp)
            <==> Present(sp.entry.flags) && FirstFitAligned(ThreeTaken(s.bits, n), n, sp.size * 0x200)
  {
    LargeParts(s, s', n, index, sp);
    hide Walk, BuiltLarge, LargeStep, FirstFitAligned, ThreeTaken, Present, Large, Aligned, RightEverywhere;
    if Present(sp.entry.flags) {
      PresentRightIffAligned(s'.mem, sp);
    } else {
      AbsentUnmapped(s'.mem, sp.entry, sp.data, sp.size);
      NotRightAtZero(s'.mem, sp);
    }
  }

  lemma PresentRightIffAligned(mem: seq<u64>, sp: Space)
    requires BuiltLarge(mem, sp.entry, sp.data, sp.size) && 1 <= sp.size <= 512
    requires Aligned(sp.entry.pml3) && Aligned(sp.entry.pml2) && Aligned(sp.data)
    requires sp.entry.pml3 < 0x1_0000_0000 && sp.entry.pml2 < 0x1_0000_0000 && sp.data < 0x1_0000_0000
    requires sp.entry.flags < PAGESIZE && Present(sp.entry.flags) && Large(sp.entry.flags)
    ensures RightEverywhere(mem, sp) <==> sp.data % 0x20_0000 == 0
  {
    hide Walk, BuiltLarge, Present, Large, Aligned;
    forall v: u64 | v < sp.size * 0x20_0000
      ensures sp.data % 0x20_0000 == 0 <==> Walk(mem, sp.entry.pml4, v) == MapsTo(sp.data + v)
    {
      LargeWalk(mem, sp.entry, sp.data, sp.size, v);
    }
    var zero: u64 := 0;
    LargeWalk(mem, sp.entry, sp.data, sp.size, zero);
  }

  lemma NotRightAtZero(mem: seq<u64>, sp: Space)
    requires Walk(mem, sp.entry.pml4, 0) == Unmapped && sp.size >= 1
    ensures !RightEverywhere(mem, sp)
  {
    hide Walk;
    var zero: u64 := 0;
    assert Walk(mem, sp.entry.pml4, zero) != MapsTo(sp.data + zero);
  }

  /** Memory free from page `lo` on, as after start-up: the data lands on page lo + 3, so the space is right only if
      that is a multiple of 512. It is not when the first free page is 0x120, the one that `initPMM` leaves. */
  lemma FreshMemoryAlignedIff(bits: seq<bool>, n: nat, lo: nat, size: nat)
    requires n <= |bits| && (forall i | 0 <= i < n :: bits[i] <==> i < lo)
    requires 1 <= size && lo + 3 + size * 0x200 <= n
    ensures IsFirstFit(ThreeTaken(bits, n), n, size * 0x200, lo + 3)
    ensures FirstFitAligned(ThreeTaken(bits, n), n, size * 0x200) <==> (lo + 3) % 512 == 0
    ensures lo == LOW_PAGES ==> !FirstFitAligned(ThreeTaken(bits, n), n, size * 0x200)
  {
    var three := ThreeTaken(bits, n);
    TakenFromEdge(bits, n, lo);
    TakenFromEdge(LowestTaken(bits, n), n, lo + 1);
    TakenFromEdge(LowestTaken(LowestTaken(bits, n), n), n, lo + 2);
    assert forall i | 0 <= i < n :: three[i] <==> i < lo + 3;
    hide ThreeTaken;
    FitFromEdge(three, n, lo + 3, size * 0x200);
    if other: nat :| IsFirstFit(three, n, size * 0x200, other) && other % 512 == 0 {
      FirstFitUnique(three, n, size * 0x200, lo + 3, other);
    }
  }

  lemma FitFromEdge(bits: seq<bool>, n: nat, lo: nat, count: nat)
    requires n <= |bits| && (forall i | 0 <= i < n :: bits[i] <==> i < lo) && count > 0 && lo + count <= n
    ensures IsFirstFit(bits, n, count, lo)
  {
    forall b | 0 <= b < lo ensures !FreeRun(bits, n, b, count) {
      assert bits[b];
    }
  }

  lemma TakenFromEdge(bits: seq<bool>, n: nat, lo: nat)
    requires lo < n <= |bits| && (forall i | 0 <= i < n :: bits[i] <==> i < lo)
    ensures forall i | 0 <= i < n :: LowestTaken(bits, n)[i] <==> i < lo + 1
  {
    var p := LowestFree(bits, n, 0);
    assert !bits[lo];
    assert p == lo;
  }

  /* ---- page 0 ---- */

  /** A free keeps page 0 marked if and only if it was marked and no table of the slot lies in it. */
  lemma FreeKeepsPageZeroIff(s: Vm, s': Vm, index: nat)
    requires FreeSpaceStep(s, s', index) && |s.bits| > 0
    ensures var e := s.dir[index];
            s'.bits[0] <==> s.bits[0] && e.pml4 >= PAGESIZE && e.pml3 >= PAGESIZE
                            && e.pml2 >= PAGESIZE && e.pml1 >= PAGESIZE
  {
    hide TableFrames;
    ZeroAmongTables(s.dir[index]);
  }

  lemma ZeroAmongTables(e: PageDirectoryEntry)
    ensures 0 in TableFrames(e)
            <==> e.pml4 < PAGESIZE || e.pml3 < PAGESIZE || e.pml2 < PAGESIZE || e.pml1 < PAGESIZE
  {
  }

  /** A space of 2 MiB pages created in an empty slot and freed again leaves page 0 free, and the next single-page
      allocation takes it: it answers 0, the answer that means that there is no page. */
  lemma LargeThenFreeHandsOutPageZero(s: Vm, s1: Vm, s2: Vm, n: nat, index: nat, sp: Space,
                                      bits: seq<bool>, address: nat)
    requires LargeStep(s, s1, n, index, sp) && s.dir[index] == NO_ENTRY && FreeSpaceStep(s1, s2, index)
    requires AllocSpec(s2.bits, n, 1, bits, address)
    ensures |s2.bits| > 0 && !s2.bits[0]
    ensures address == 0 && HasRun(s2.bits, n, 1) && bits == s2.bits[0 := true]
  {
    hide BuiltLarge, Word, ThreeTaken;
    assert sp.entry.pml4 / PAGESIZE in LargeFrames(sp);
    FreeKeepsPageZeroIff(s1, s2, index);
    hide LargeStep, FreeSpaceStep;
    assert FreeRun(s2.bits, n, 0, 1);
  }

  /* ---- from the call to the space ---- */

  /** A call for large pages that the bitmap affords creates a space of 2 MiB pages. */
  lemma LargeCallCreates(s: Vm, s': Vm, n: nat, index: nat, sp: Space)
    requires LargeCall(s, s', n, index, sp) && s.bits[0] && sp.size > 0
    requires HasRun(ThreeTaken(s.bits, n), n, sp.size * 0x200)
    ensures LargeStep(s, s', n, index, sp)
  {
    LargeSucceedsIff(s.bits, s'.bits, n, sp);
    LargeStepDone(s, s', n, index, sp);
  }

  lemma LargeStepDone(s: Vm, s': Vm, n: nat, index: nat, sp: Space)
    requires LargeCall(s, s', n, index, sp) && Complete(sp)
    ensures LargeStep(s, s', n, index, sp)
  {
    hide LargeWrites, LargeStep, Complete, Large;
    LargeAllocated(s.bits, s'.bits, n, sp);
    hide LargeAllocs, Aligned;
    LargeWritten(s.mem, s'.mem, n, sp);
    LargeByParts(s, s', n, index, sp);
  }

  lemma LargeAllocated(bits: seq<bool>, bits': seq<bool>, n: nat, sp: Space)
    requires n <= |bits| && LargeAllocs(bits, bits', n, sp) && Complete(sp)
    ensures Grown(bits, bits', n, LargeFrames(sp))
    ensures IsFirstFit(ThreeTaken(bits, n), n, sp.size * 0x200, sp.data / PAGESIZE) && sp.size >= 1 && Aligned(sp.data)
    ensures var f4, f3, f2 := sp.entry.pml4 / PAGESIZE, sp.entry.pml3 / PAGESIZE, sp.entry.pml2 / PAGESIZE;
            f4 != f3 && f4 != f2 && f3 != f2 && f4 < n && f3 < n && f2 < n
    ensures Aligned(sp.entry.pml4) && Aligned(sp.entry.pml3) && Aligned(sp.entry.pml2)
  {
    var b1 := LowestTaken(bits, n);
    var b2, b3 := LowestTaken(b1, n), ThreeTaken(bits, n);
    hide AllocSpec, Grown, LargeFrames, LowestTaken, ThreeTaken, IsFirstFit, Complete;
    LargePlacedBySpecs(bits, b1, b2, b3, bits', n, sp);
    LargeFits(bits, b1, b2, b3, bits', n, sp);
  }

  lemma LargeByParts(s: Vm, s': Vm, n: nat, index: nat, sp: Space)
    requires index < |s.dir| && s.dir[index].pml4 == 0 && s'.dir == s.dir[index := sp.entry]
    requires sp.entry.pml1 == s.dir[index].pml1 && sp.entry.flags < PAGESIZE && Large(sp.entry.flags)
    requires n <= 0x10_0000 && n <= |s.bits| && 1 <= sp.size <= 512
    requires Aligned(sp.entry.pml4) && Aligned(sp.entry.pml3) && Aligned(sp.entry.pml2) && Aligned(sp.data)
    requires IsFirstFit(ThreeTaken(s.bits, n), n, sp.size * 0x200, sp.data / PAGESIZE)
    requires Grown(s.bits, s'.bits, n, LargeFrames(sp))
    requires |s'.mem| == |s.mem| && BuiltLarge(s'.mem, sp.entry, sp.data, sp.size)
    requires Word(s'.mem, sp.entry.pml4 + 8 * 256) == KPML3 + 7 && Word(s'.mem, sp.entry.pml4 + 8 * 511) == KPML3_HH + 7
    requires forall w | 0 <= w < |s.mem| && w / 512 != sp.entry.pml4 / PAGESIZE && w / 512 != sp.entry.pml3 / PAGESIZE
                        && w / 512 != sp.entry.pml2 / PAGESIZE :: s'.mem[w] == s.mem[w]
    ensures LargeStep(s, s', n, index, sp)
  {
    TablesAreFrames(sp);
    hide Large, Aligned, IsFirstFit, ThreeTaken, Grown, LargeFrames, BuiltLarge, Word;
  }

  lemma LargeFits(b0: seq<bool>, b1: seq<bool>, b2: seq<bool>, b3: seq<bool>, b4: seq<bool>, n: nat, sp: Space)
    requires AllocSpec(b0, n, 1, b1, sp.entry.pml4) && AllocSpec(b1, n, 1, b2, sp.entry.pml3)
    requires AllocSpec(b2, n, 1, b3, sp.entry.pml2) && AllocSpec(b3, n, sp.size * 0x200, b4, sp.data)
    requires Complete(sp) && n <= |b0|
    ensures IsFirstFit(ThreeTaken(b0, n), n, sp.size * 0x200, sp.data / PAGESIZE) && sp.size >= 1 && Aligned(sp.data)
  {
    OnePageIsLowest(b0, n, b1, sp.entry.pml4);
    OnePageIsLowest(b1, n, b2, sp.entry.pml3);
    OnePageIsLowest(b2, n, b3, sp.entry.pml2);
    hide LowestTaken, HasRun, IsFirstFit;
  }

  lemma TablesAreFrames(sp: Space)
    ensures sp.entry.pml4 / PAGESIZE in LargeFrames(sp) && sp.entry.pml3 / PAGESIZE in LargeFrames(sp)
    ensures sp.entry.pml2 / PAGESIZE in LargeFrames(sp)
  {
  }

  lemma LargePlacedBySpecs(b0: seq<bool>, b1: seq<bool>, b2: seq<bool>, b3: seq<bool>, b4: seq<bool>, n: nat, sp: Space)
    requires AllocSpec(b0, n, 1, b1, sp.entry.pml4) && AllocSpec(b1, n, 1, b2, sp.entry.pml3)
    requires AllocSpec(b2, n, 1, b3, sp.entry.pml2) && AllocSpec(b3, n, sp.size * 0x200, b4, sp.data)
    requires Complete(sp) && n <= |b0|
    ensures Grown(b0, b4, n, LargeFrames(sp))
    ensures var f4, f3, f2 := sp.entry.pml4 / PAGESIZE, sp.entry.pml3 / PAGESIZE, sp.entry.pml2 / PAGESIZE;
            f4 != f3 && f4 != f2 && f3 != f2 && f4 < n && f3 < n && f2 < n
    ensures Aligned(sp.entry.pml4) && Aligned(sp.entry.pml3) && Aligned(sp.entry.pml2)
  {
    AllocGave(b0, b1, n, 1, sp.entry.pml4);
    AllocGave(b1, b2, n, 1, sp.entry.pml3);
    AllocGave(b2, b3, n, 1, sp.entry.pml2);
    AllocGave(b3, b4, n, sp.size * 0x200, sp.data);
    hide AllocSpec, Gave, Grown, LargeFrames;
    LargePlaced(b0, b1, b2, b3, b4, n, sp);
  }

  lemma LargeWritten(mem: seq<u64>, mem': seq<u64>, n: nat, sp: Space)
    requires LargeWrites(mem, mem', sp) && |mem| == 512 * n && sp.size <= 512
    requires Aligned(sp.entry.pml4) && Aligned(sp.entry.pml3) && Aligned(sp.entry.pml2)
    requires var f4, f3, f2 := sp.entry.pml4 / PAGESIZE, sp.entry.pml3 / PAGESIZE, sp.entry.pml2 / PAGESIZE;
             f4 != f3 && f4 != f2 && f3 != f2 && f4 < n && f3 < n && f2 < n
    ensures |mem'| == |mem| && BuiltLarge(mem', sp.entry, sp.data, sp.size)
    ensures Word(mem', sp.entry.pml4 + 8 * 256) == KPML3 + 7 && Word(mem', sp.entry.pml4 + 8 * 511) == KPML3_HH + 7
    ensures forall w | 0 <= w < |mem| && w / 512 != sp.entry.pml4 / PAGESIZE && w / 512 != sp.entry.pml3 / PAGESIZE
                       && w / 512 != sp.entry.pml2 / PAGESIZE :: mem'[w] == mem[w]
  {
    hide BuiltLarge, Word, Mapped, TablesLinked, Aligned;
    LargeBuilt(mem, TablesLinked(mem, sp.entry.pml4, sp.entry.pml3, sp.entry.pml2), mem', n, sp);
  }

  lemma LargeBuilt(mem: seq<u64>, m1: seq<u64>, m2: seq<u64>, n: nat, sp: Space)
    requires Aligned(sp.entry.pml4) && Aligned(sp.entry.pml3) && Aligned(sp.entry.pml2) && |mem| == 512 * n
    requires var f4, f3, f2 := sp.entry.pml4 / PAGESIZE, sp.entry.pml3 / PAGESIZE, sp.entry.pml2 / PAGESIZE;
             f4 != f3 && f4 != f2 && f3 != f2 && f4 < n && f3 < n && f2 < n
    requires sp.entry.pml4 / 8 + 512 <= |mem| && sp.entry.pml3 / 8 < |mem| && sp.size <= 512
    requires sp.entry.pml3 + 7 < TWO_TO_64 && sp.entry.pml2 + 7 < TWO_TO_64
    requires m1 == TablesLinked(mem, sp.entry.pml4, sp.entry.pml3, sp.entry.pml2)
    requires Mapped(m1, m2, sp.entry.pml2, sp.size, sp.data, 0x20_0000, sp.entry.flags)
    ensures |m2| == |mem| && BuiltLarge(m2, sp.entry, sp.data, sp.size)
    ensures Word(m2, sp.entry.pml4 + 8 * 256) == KPML3 + 7 && Word(m2, sp.entry.pml4 + 8 * 511) == KPML3_HH + 7
    ensures forall w | 0 <= w < |mem| && w / 512 != sp.entry.pml4 / PAGESIZE && w / 512 != sp.entry.pml3 / PAGESIZE
                       && w / 512 != sp.entry.pml2 / PAGESIZE :: m2[w] == mem[w]
  {
    var e := sp.entry;
    hide BuiltLarge, Word, Mapped, TablesLinked, Aligned;
    WordAt(mem, e.pml4, 0);
    WordAt(mem, e.pml3, 0);
    WordAt(mem, e.pml2, 0);
    LargeContents(mem, m1, m2, e.pml4, e.pml3, e.pml2, sp.size, sp.data, e.flags);
    TopWords(m2, e.pml4);
    LargeFromPages(m2, sp);
  }

  lemma TopWords(mem: seq<u64>, pml4: nat)
    requires Aligned(pml4) && 512 * (pml4 / PAGESIZE) + 512 <= |mem|
    ensures Word(mem, pml4 + 8 * 256) == mem[512 * (pml4 / PAGESIZE) + 256]
    ensures Word(mem, pml4 + 8 * 511) == mem[512 * (pml4 / PAGESIZE) + 511]
  {
    WordAt(mem, pml4, 256);
    WordAt(mem, pml4, 511);
    hide Aligned, Word;
  }

  lemma LargeContents(mem: seq<u64>, m1: seq<u64>, m2: seq<u64>, pml4: nat, pml3: nat, pml2: nat,
                      size: nat, data: nat, flags: nat)
    requires var f4, f3, f2 := pml4 / PAGESIZE, pml3 / PAGESIZE, pml2 / PAGESIZE;
             && pml4 / 8 == 512 * f4 && pml3 / 8 == 512 * f3 && pml2 / 8 == 512 * f2
             && f4 != f3 && f4 != f2 && f3 != f2
             && 512 * f4 + 512 <= |mem| && 512 * f3 + 512 <= |mem| && 512 * f2 + 512 <= |mem|
    requires size <= 512 && pml3 + 7 < TWO_TO_64 && pml2 + 7 < TWO_TO_64
    requires m1 == TablesLinked(mem, pml4, pml3, pml2)
    requires Mapped(m1, m2, pml2, size, data, 0x20_0000, flags)
    ensures |m2| == |mem|
    ensures var f4, f3, f2 := pml4 / PAGESIZE, pml3 / PAGESIZE, pml2 / PAGESIZE;
            && m2[512 * f4] == pml3 + 7 && m2[512 * f3] == pml2 + 7
            && m2[512 * f4 + 256] == KPML3 + 7 && m2[512 * f4 + 511] == KPML3_HH + 7
            && (forall w | 512 * f2 <= w < 512 * f2 + size :: m2[w] == data + (w - 512 * f2) * 0x20_0000 + flags)
            && forall w | 0 <= w < |mem| && w / 512 != f4 && w / 512 != f3 && w / 512 != f2 :: m2[w] == mem[w]
  {
    MappedByPage(m1, m2, pml2, size, data, 0x20_0000, flags);
    LinkedByPage(mem, pml4, pml3, pml2);
    hide Mapped, TablesLinked;
    LargeWritesByPage(mem, m1, m2, pml4 / PAGESIZE, pml3 / PAGESIZE, pml2 / PAGESIZE, pml3 + 7, pml2 + 7, size);
  }

  lemma LargeWritesByPage(mem: seq<u64>, m1: seq<u64>, m2: seq<u64>, f4: nat, f3: nat, f2: nat, e3: u64, e2: u64,
                          size: nat)
    requires f4 != f3 && f4 != f2 && f3 != f2 && size <= 512
    requires 512 * f4 + 512 <= |mem| && 512 * f3 + 512 <= |mem| && 512 * f2 + 512 <= |mem|
    requires m1 == mem[512 * f4 + 256 := KPML3 + 7][512 * f4 + 511 := KPML3_HH + 7][512 * f4 := e3][512 * f3 := e2]
    requires |m2| == |mem|
    requires forall w | 0 <= w < |mem| && !(512 * f2 <= w < 512 * f2 + size) :: m2[w] == m1[w]
    ensures m2[512 * f4] == e3 && m2[512 * f3] == e2
    ensures m2[512 * f4 + 256] == KPML3 + 7 && m2[512 * f4 + 511] == KPML3_HH + 7
    ensures forall w | 0 <= w < |mem| && w / 512 != f4 && w / 512 != f3 && w / 512 != f2 :: m2[w] == mem[w]
  {
    forall w | 0 <= w < |mem| && w / 512 != f4 && w / 512 != f3 && w / 512 != f2 ensures m2[w] == mem[w] {
      assert !(512 * f2 <= w < 512 * f2 + size);
    }
  }

  lemma LargeFromPages(mem: seq<u64>, sp: Space)
    requires Aligned(sp.entry.pml4) && Aligned(sp.entry.pml3) && Aligned(sp.entry.pml2) && sp.size <= 512
    requires 512 * (sp.entry.pml4 / PAGESIZE) + 512 <= |mem| && 512 * (sp.entry.pml3 / PAGESIZE) + 512 <= |mem|
    requires 512 * (sp.entry.pml2 / PAGESIZE) + 512 <= |mem|
    requires mem[512 * (sp.entry.pml4 / PAGESIZE)] == sp.entry.pml3 + 7
    requires mem[512 * (sp.entry.pml3 / PAGESIZE)] == sp.entry.pml2 + 7
    requires forall w | 512 * (sp.entry.pml2 / PAGESIZE) <= w < 512 * (sp.entry.pml2 / PAGESIZE) + sp.size ::
      mem[w] == sp.data + (w - 512 * (sp.entry.pml2 / PAGESIZE)) * 0x20_0000 + sp.entry.flags
    ensures BuiltLarge(mem, sp.entry, sp.data, sp.size)
  {
    var e := sp.entry;
    hide Word;
    WordAt(mem, e.pml4, 0);
    WordAt(mem, e.pml3, 0);
    forall i | 0 <= i < sp.size ensures Word(mem, e.pml2 + 8 * i) == sp.data + i * 0x20_0000 + e.flags {
      WordAt(mem, e.pml2, i);
    }
  }
}
