/** Address spaces as values: what building one and freeing one do to the page bitmap, to memory and to the table of
    spaces (kernel/mm/virtualPageManager.c), and why live spaces never disturb each other. */
module AddressSpaces {
  import opened Words
  import opened FirstFit
  import opened PhysicalPages
  import opened PageTables

  datatype PageDirectoryEntry = PageDirectoryEntry(pml4: u64, pml3: u64, pml2: u64, pml1: u64, flags: u64)

  const NO_ENTRY: PageDirectoryEntry := PageDirectoryEntry(0, 0, 0, 0, 0)

  /** A live space of 4 KiB pages: its table frames, and `size` data pages from physical address `data` on. */
  datatype Space = Space(entry: PageDirectoryEntry, data: nat, size: nat)

  /** Page bitmap, physical memory, and the table of spaces. */
  datatype Vm = Vm(bits: seq<bool>, mem: seq<u64>, dir: seq<PageDirectoryEntry>)

  ghost function TableFrames(e: PageDirectoryEntry): set<int> {
    {e.pml4 / PAGESIZE, e.pml3 / PAGESIZE, e.pml2 / PAGESIZE, e.pml1 / PAGESIZE}
  }

  ghost function Frames(sp: Space): set<int> {
    TableFrames(sp.entry) + Interval(sp.data / PAGESIZE, sp.size)
  }

  ghost predicate TablesApart(e: PageDirectoryEntry) {
    var f4, f3, f2, f1 := e.pml4 / PAGESIZE, e.pml3 / PAGESIZE, e.pml2 / PAGESIZE, e.pml1 / PAGESIZE;
    f4 != f3 && f4 != f2 && f4 != f1 && f3 != f2 && f3 != f1 && f2 != f1
  }

  predicate Aligned(address: nat) {
    address % PAGESIZE == 0
  }

  /** Present, not a large page, and nothing in the address bits. */
  predicate SmallFlags(flags: nat) {
    flags < PAGESIZE && Present(flags) && !Large(flags)
  }

  /** Page-aligned, in the first n pages, and five different places. */
  ghost predicate WellPlaced(sp: Space, n: nat) {
    var e := sp.entry;
    && n <= 0x10_0000 && 1 <= sp.size <= 512 && SmallFlags(e.flags)
    && Aligned(e.pml4) && Aligned(e.pml3) && Aligned(e.pml2) && Aligned(e.pml1) && Aligned(sp.data)
    && (forall f | f in Frames(sp) :: 0 < f < n)
    && TablesApart(e) && TableFrames(e) !! Interval(sp.data / PAGESIZE, sp.size)
  }

  /** The entries a space is made of. */
  ghost predicate Built(mem: seq<u64>, sp: Space) {
    var e := sp.entry;
    && Word(mem, e.pml4) == e.pml3 + 7
    && Word(mem, e.pml4 + 8 * 256) == KPML3 + 7
    && Word(mem, e.pml4 + 8 * 511) == KPML3_HH + 7
    && Word(mem, e.pml3) == e.pml2 + 7
    && Word(mem, e.pml2) == e.pml1 + e.flags
    && forall i | 0 <= i < sp.size :: Word(mem, e.pml1 + 8 * i) == sp.data + i * PAGESIZE + e.flags
  }

  /* ---- what a space translates ---- */

  lemma SmallEntry(page: nat, flags: nat)
    requires page < 0x10_0000 && SmallFlags(flags)
    ensures var e := page * PAGESIZE + flags; Present(e) && !Large(e) && FrameOf(e) == page * PAGESIZE
  {
    EntryParts(page, flags);
    hide Present, Large, FrameOf;
  }

  lemma SmallIndices(v: u64)
    requires v < 0x20_0000
    ensures Index4(v) == 0 && Index3(v) == 0 && Index2(v) == 0 && Index1(v) == v / PAGESIZE && Canonical(v)
  {
  }

  lemma WalkDown4(mem: seq<u64>, pml4: nat, v: u64, page: nat)
    requires Word(mem, pml4 + 8 * Index4(v)) == page * PAGESIZE + 7 && page < 0x10_0000 && Canonical(v)
    ensures Walk(mem, pml4, v) == Walk3(mem, page * PAGESIZE, v)
  {
    TableEntry(page);
  }

  lemma WalkDown3(mem: seq<u64>, pml3: nat, v: u64, page: nat)
    requires Word(mem, pml3 + 8 * Index3(v)) == page * PAGESIZE + 7 && page < 0x10_0000
    ensures Walk3(mem, pml3, v) == Walk2(mem, page * PAGESIZE, v)
  {
    TableEntry(page);
  }

  lemma WalkDown2(mem: seq<u64>, pml2: nat, v: u64, page: nat, flags: nat)
    requires Word(mem, pml2 + 8 * Index2(v)) == page * PAGESIZE + flags && page < 0x10_0000 && SmallFlags(flags)
    ensures Walk2(mem, pml2, v) == Walk1(mem, page * PAGESIZE, v)
  {
    SmallEntry(page, flags);
  }

  lemma WalkDown1(mem: seq<u64>, pml1: nat, v: u64, page: nat, flags: nat)
    requires Word(mem, pml1 + 8 * Index1(v)) == page * PAGESIZE + flags && page < 0x10_0000 && SmallFlags(flags)
    ensures Walk1(mem, pml1, v) == MapsTo(page * PAGESIZE + v % PAGESIZE)
  {
    SmallEntry(page, flags);
  }

  /** Aligned tables and data below 4 GiB, and flags of a small page. */
  ghost predicate InReach(sp: Space) {
    var e := sp.entry;
    && sp.size <= 512 && SmallFlags(e.flags)
    && Aligned(e.pml3) && Aligned(e.pml2) && Aligned(e.pml1) && Aligned(sp.data)
    && e.pml3 / PAGESIZE < 0x10_0000 && e.pml2 / PAGESIZE < 0x10_0000 && e.pml1 / PAGESIZE < 0x10_0000
    && sp.data / PAGESIZE + sp.size <= 0x10_0000
  }

  lemma PlacedInReach(sp: Space, n: nat)
    requires WellPlaced(sp, n)
    ensures InReach(sp)
  {
    var e := sp.entry;
    assert e.pml3 / PAGESIZE in Frames(sp) && e.pml2 / PAGESIZE in Frames(sp) && e.pml1 / PAGESIZE in Frames(sp);
    assert sp.data / PAGESIZE + (sp.size - 1) in Frames(sp);
  }

  lemma PagesInRange(sp: Space, k: nat)
    requires InReach(sp) && k < sp.size
    ensures var e := sp.entry;
            && e.pml3 / PAGESIZE < 0x10_0000 && e.pml2 / PAGESIZE < 0x10_0000 && e.pml1 / PAGESIZE < 0x10_0000
            && sp.data / PAGESIZE + k < 0x10_0000
            && e.pml3 == e.pml3 / PAGESIZE * PAGESIZE && e.pml2 == e.pml2 / PAGESIZE * PAGESIZE
            && e.pml1 == e.pml1 / PAGESIZE * PAGESIZE && sp.data == sp.data / PAGESIZE * PAGESIZE
            && sp.size <= 512 && SmallFlags(e.flags)
  {
  }

  /** Every address below size * 4096 goes to the data pages, in order. */
  lemma UserWalk(mem: seq<u64>, sp: Space, v: u64)
    requires Built(mem, sp) && InReach(sp) && v < sp.size * PAGESIZE
    ensures Walk(mem, sp.entry.pml4, v) == MapsTo(sp.data + v)
  {
    hide Walk, Walk1, Walk2, Walk3, InReach, Word, SmallFlags, Index1, Index2, Index3, Index4, Canonical;
    var e, k := sp.entry, v / PAGESIZE;
    PagesInRange(sp, k);
    SmallIndices(v);
    WalkDown4(mem, e.pml4, v, e.pml3 / PAGESIZE);
    WalkDown3(mem, e.pml3, v, e.pml2 / PAGESIZE);
    WalkDown2(mem, e.pml2, v, e.pml1 / PAGESIZE, e.flags);
    assert Word(mem, e.pml1 + 8 * k) == sp.data + k * PAGESIZE + e.flags;
    WalkDown1(mem, e.pml1, v, sp.data / PAGESIZE + k, e.flags);
  }

  /** Every address under top-level entries 256 and 511 translates as in the kernel's own space. */
  lemma KernelWalk(mem: seq<u64>, sp: Space, v: u64)
    requires Built(mem, sp) && KernelTables(mem) && (Index4(v) == 256 || Index4(v) == 511)
    ensures Walk(mem, sp.entry.pml4, v) == Walk(mem, KPML4, v) == KernelMap(v)
  {
    hide Word, KernelTables;
    SameTopEntry(mem, sp.entry.pml4, v);
  }

  /** A table that holds the kernel's own entry for an address translates that address as the kernel does. */
  lemma SameTopEntry(mem: seq<u64>, pml4: nat, v: u64)
    requires KernelTables(mem) && Word(mem, pml4 + 8 * Index4(v)) == KernelEntry(0, Index4(v))
    ensures Walk(mem, pml4, v) == Walk(mem, KPML4, v) == KernelMap(v)
  {
    assert Word(mem, KPML4 + 0 * 0x1000 + 8 * Index4(v)) == KernelEntry(0, Index4(v));
    hide KernelTables, Word, Walk3, Index4, Canonical, KernelEntry, KernelMap;
    KernelWalkExact(mem, v);
  }

  /* ---- building and freeing ---- */

  ghost predicate CreateStep(s: Vm, s': Vm, n: nat, index: nat, sp: Space) {
    && index < |s.dir| && s.dir[index].pml4 == 0 && s'.dir == s.dir[index := sp.entry]
    && WellPlaced(sp, n) && n <= |s.bits| == |s'.bits|
    && (forall f | f in Frames(sp) :: !s.bits[f])
    && (forall i | 0 <= i < |s.bits| :: s'.bits[i] <==> s.bits[i] || i in Frames(sp))
    && |s'.mem| == |s.mem| && Built(s'.mem, sp)
    && forall w | 0 <= w < |s.mem| && w / 512 !in TableFrames(sp.entry) :: s'.mem[w] == s.mem[w]
  }

  /** `freeAddressSpace`: the four table pages are given back and the slot zeroed; nothing else changes. */
  ghost predicate FreeSpaceStep(s: Vm, s': Vm, index: nat) {
    && index < |s.dir| && s'.dir == s.dir[index := NO_ENTRY] && s'.mem == s.mem && |s'.bits| == |s.bits|
    && forall i | 0 <= i < |s.bits| :: s'.bits[i] <==> s.bits[i] && i !in TableFrames(s.dir[index])
  }

  predicate KernelFrame(f: int) {
    0x200 <= f < 0x208
  }

  /** Live spaces own marked frames, pairwise disjoint and disjoint from page 0 and the kernel's tables, and their
      tables and the kernel's are intact. */
  ghost predicate Isolated(s: Vm, n: nat, live: map<nat, Space>) {
    && n <= |s.bits| && 512 * n <= |s.mem| && 0x208 <= n && s.bits[0]
    && (forall f | 0 <= f < n && KernelFrame(f) :: s.bits[f])
    && KernelTables(s.mem)
    && (forall i | i in live :: LiveIn(s, n, i, live[i]))
    && forall i, j | i in live && j in live && i != j :: Frames(live[i]) !! Frames(live[j])
  }

  ghost predicate LiveIn(s: Vm, n: nat, i: nat, sp: Space) {
    && i < |s.dir| && s.dir[i] == sp.entry && WellPlaced(sp, n) && n <= |s.bits| && Built(s.mem, sp)
    && forall f | f in Frames(sp) :: 0 <= f < |s.bits| && s.bits[f] && !KernelFrame(f)
  }

  /* ---- isolation ---- */

  /** The two memories agree on every word of a page. */
  ghost predicate SamePage(mem: seq<u64>, mem': seq<u64>, page: nat) {
    && |mem'| == |mem| && 512 * page + 512 <= |mem|
    && forall w | 512 * page <= w < 512 * page + 512 :: mem'[w] == mem[w]
  }

  lemma SameWord(mem: seq<u64>, mem': seq<u64>, address: nat, i: nat)
    requires Aligned(address) && SamePage(mem, mem', address / PAGESIZE) && i < 512
    ensures Word(mem', address + 8 * i) == Word(mem, address + 8 * i)
  {
    assert (address + 8 * i) / 8 == 512 * (address / PAGESIZE) + i;
  }

  lemma BuiltFramed(mem: seq<u64>, mem': seq<u64>, sp: Space, n: nat)
    requires Built(mem, sp) && WellPlaced(sp, n)
    requires forall f | f in TableFrames(sp.entry) :: f >= 0 && SamePage(mem, mem', f)
    ensures Built(mem', sp)
  {
    var e := sp.entry;
    hide Word, SamePage;
    SameWord(mem, mem', e.pml4, 0);
    SameWord(mem, mem', e.pml4, 256);
    SameWord(mem, mem', e.pml4, 511);
    SameWord(mem, mem', e.pml3, 0);
    SameWord(mem, mem', e.pml2, 0);
    forall i | 0 <= i < sp.size
      ensures Word(mem', e.pml1 + 8 * i) == sp.data + i * PAGESIZE + e.flags
    {
      SameWord(mem, mem', e.pml1, i);
    }
  }

  lemma KernelTablesFramed(mem: seq<u64>, mem': seq<u64>)
    requires KernelTables(mem) && forall f | KernelFrame(f) :: SamePage(mem, mem', f)
    ensures KernelTables(mem')
  {
    forall table, i | 0 <= table < 8 && 0 <= i < 512
      ensures Word(mem', KPML4 + table * 0x1000 + 8 * i) == KernelEntry(table, i)
    {
      assert KernelFrame(0x200 + table);
      SameWord(mem, mem', KPML4 + table * 0x1000, i);
    }
  }

  /** A page the new space does not use for its tables keeps its words. */
  lemma CreateSparesPage(s: Vm, s': Vm, n: nat, index: nat, sp: Space, page: nat)
    requires CreateStep(s, s', n, index, sp) && page !in TableFrames(sp.entry) && 512 * page + 512 <= |s.mem|
    ensures SamePage(s.mem, s'.mem, page)
  {
    forall w | 512 * page <= w < 512 * page + 512 ensures s'.mem[w] == s.mem[w] {
      assert w / 512 == page;
    }
  }

  lemma CreateSparesLive(s: Vm, s': Vm, n: nat, index: nat, sp: Space, i: nat, other: Space)
    requires CreateStep(s, s', n, index, sp) && LiveIn(s, n, i, other) && 512 * n <= |s.mem|
    ensures i != index && LiveIn(s', n, i, other) && Frames(other) !! Frames(sp)
  {
    assert other.entry.pml4 / PAGESIZE in Frames(other);
    assert forall f | f in Frames(other) :: f !in Frames(sp);
    forall f | f in TableFrames(other.entry) ensures f >= 0 && SamePage(s.mem, s'.mem, f) {
      assert f in Frames(other);
      CreateSparesPage(s, s', n, index, sp, f);
    }
    BuiltFramed(s.mem, s'.mem, other, n);
  }

  lemma CreateSparesKernel(s: Vm, s': Vm, n: nat, live: map<nat, Space>, index: nat, sp: Space)
    requires Isolated(s, n, live) && CreateStep(s, s', n, index, sp)
    ensures KernelTables(s'.mem) && LiveIn(s', n, index, sp)
    ensures n <= |s'.bits| && 512 * n <= |s'.mem| && s'.bits[0]
    ensures forall f | 0 <= f < n && KernelFrame(f) :: s'.bits[f]
  {
    hide KernelTables, Built, Word;
    forall f | KernelFrame(f) ensures SamePage(s.mem, s'.mem, f) {
      assert s.bits[f] && f !in Frames(sp);
      CreateSparesPage(s, s', n, index, sp, f);
    }
    KernelTablesFramed(s.mem, s'.mem);
  }

  /** Creating a space keeps isolation, with the new space among the live ones. */
  lemma CreateKeepsIsolation(s: Vm, s': Vm, n: nat, live: map<nat, Space>, index: nat, sp: Space)
    requires Isolated(s, n, live) && CreateStep(s, s', n, index, sp)
    ensures index !in live && Isolated(s', n, live[index := sp])
  {
    hide CreateStep, KernelTables, LiveIn, Frames;
    forall i | i in live
      ensures i != index && LiveIn(s', n, i, live[i]) && Frames(live[i]) !! Frames(sp)
    {
      CreateSparesLive(s, s', n, index, sp, i, live[i]);
    }
    CreateSparesKernel(s, s', n, live, index, sp);
  }

  /** Freeing a space keeps isolation of the others. */
  lemma FreeKeepsIsolation(s: Vm, s': Vm, n: nat, live: map<nat, Space>, index: nat)
    requires Isolated(s, n, live) && FreeSpaceStep(s, s', index) && index in live
    ensures Isolated(s', n, live - {index})
  {
    var sp := live[index];
    assert LiveIn(s, n, index, sp);
    assert forall f | f in TableFrames(sp.entry) :: f in Frames(sp);
    forall i | i in live && i != index ensures LiveIn(s', n, i, live[i]) {
      assert LiveIn(s, n, i, live[i]) && Frames(live[i]) !! Frames(sp);
    }
  }

  /** The frames that hold translation tables in use: the kernel's and those of the live spaces. */
  ghost predicate TableInUse(live: map<nat, Space>, f: int) {
    KernelFrame(f) || exists i :: i in live && f in TableFrames(live[i].entry)
  }

  ghost predicate FrameInUse(live: map<nat, Space>, f: int) {
    f == 0 || KernelFrame(f) || exists i :: i in live && f in Frames(live[i])
  }

  /** Anything else that goes on between creations and frees: programs write their data pages, other users of the
      page allocator take and give back their own pages, spaces of 2 MiB pages are created. Only the slots in use
      stay as they are, only the frames in use stay marked, and only the tables in use keep their words. */
  ghost predicate ElsewhereStep(s: Vm, s': Vm, live: map<nat, Space>) {
    && |s'.bits| == |s.bits| && |s'.mem| == |s.mem|
    && (forall i | i in live && i < |s.dir| :: i < |s'.dir| && s'.dir[i] == s.dir[i])
    && (forall f | 0 <= f < |s.bits| && FrameInUse(live, f) && s.bits[f] :: s'.bits[f])
    && forall f: nat | TableInUse(live, f) && 512 * f + 512 <= |s.mem| :: SamePage(s.mem, s'.mem, f)
  }

  /** Freeing a slot that holds no live space, such as one left by a creation out of memory or one of 2 MiB pages, keeps
      isolation if and only if none of its four table pages is in use. */
  lemma FreeOfOtherKeepsIsolationIff(s: Vm, s': Vm, n: nat, live: map<nat, Space>, index: nat)
    requires Isolated(s, n, live) && FreeSpaceStep(s, s', index) && index !in live
    ensures Isolated(s', n, live) <==> forall f | f in TableFrames(s.dir[index]) :: !FrameInUse(live, f)
  {
    hide Isolated, TableFrames, TableInUse, FrameInUse, SamePage;
    var freed := TableFrames(s.dir[index]);
    if f :| f in freed && FrameInUse(live, f) {
      InUseIsMarked(s, n, live, f);
      assert !s'.bits[f];
      if Isolated(s', n, live) {
        InUseIsMarked(s', n, live, f);
      }
    } else {
      forall f: nat | TableInUse(live, f) && 512 * f + 512 <= |s.mem| ensures SamePage(s.mem, s'.mem, f) {
        SamePageOfItself(s.mem, f);
      }
      assert ElsewhereStep(s, s', live);
      ElsewhereKeepsIsolation(s, s', n, live);
    }
  }

  lemma SamePageOfItself(mem: seq<u64>, f: nat)
    requires 512 * f + 512 <= |mem|
    ensures SamePage(mem, mem, f)
  {
  }

  lemma InUseIsMarked(s: Vm, n: nat, live: map<nat, Space>, f: int)
    requires Isolated(s, n, live) && FrameInUse(live, f)
    ensures 0 <= f < n <= |s.bits| && s.bits[f]
  {
    hide Built, KernelTables;
    if f != 0 && !KernelFrame(f) {
      var i :| i in live && f in Frames(live[i]);
      assert LiveIn(s, n, i, live[i]);
    }
  }

  lemma ElsewhereSparesLive(s: Vm, s': Vm, n: nat, live: map<nat, Space>, i: nat)
    requires Isolated(s, n, live) && ElsewhereStep(s, s', live) && i in live
    ensures LiveIn(s', n, i, live[i])
  {
    var sp := live[i];
    assert LiveIn(s, n, i, sp);
    forall f | f in TableFrames(sp.entry) ensures f >= 0 && SamePage(s.mem, s'.mem, f) {
      assert f in Frames(sp) && 0 < f < n && TableInUse(live, f);
    }
    BuiltFramed(s.mem, s'.mem, sp, n);
    forall f | f in Frames(sp) ensures 0 <= f < |s'.bits| && s'.bits[f] && !KernelFrame(f) {
      assert FrameInUse(live, f);
    }
  }

  lemma ElsewhereSparesKernel(s: Vm, s': Vm, n: nat, live: map<nat, Space>)
    requires Isolated(s, n, live) && ElsewhereStep(s, s', live)
    ensures KernelTables(s'.mem) && s'.bits[0] && forall f | 0 <= f < n && KernelFrame(f) :: s'.bits[f]
  {
    hide LiveIn, Frames, KernelTables, SamePage, TableFrames;
    forall f | 0 <= f < n && (f == 0 || KernelFrame(f)) ensures s'.bits[f] {
      assert FrameInUse(live, f);
    }
    forall f | KernelFrame(f) ensures SamePage(s.mem, s'.mem, f) {
      assert TableInUse(live, f);
    }
    KernelTablesFramed(s.mem, s'.mem);
  }

  lemma ElsewhereKeepsIsolation(s: Vm, s': Vm, n: nat, live: map<nat, Space>)
    requires Isolated(s, n, live) && ElsewhereStep(s, s', live)
    ensures Isolated(s', n, live)
  {
    ElsewhereSparesKernel(s, s', n, live);
    hide LiveIn, Frames, KernelTables, KernelFrame, SamePage, TableInUse, FrameInUse;
    forall i | i in live ensures LiveIn(s', n, i, live[i]) {
      ElsewhereSparesLive(s, s', n, live, i);
    }
  }

  lemma LiveSlotIsTaken(s: Vm, n: nat, live: map<nat, Space>, i: nat)
    requires Isolated(s, n, live) && i in live
    ensures i < |s.dir| && s.dir[i].pml4 != 0
  {
    hide Built, KernelTables;
    assert LiveIn(s, n, i, live[i]) && live[i].entry.pml4 / PAGESIZE in Frames(live[i]);
  }

  lemma TableIsMarked(s: Vm, n: nat, live: map<nat, Space>, f: int)
    requires Isolated(s, n, live) && TableInUse(live, f)
    ensures 0 < f < n && s.bits[f]
  {
    hide Built, KernelTables;
    if !KernelFrame(f) {
      var i :| i in live && f in TableFrames(live[i].entry);
      assert LiveIn(s, n, i, live[i]) && f in Frames(live[i]);
    }
  }

  lemma LiveParts(s: Vm, n: nat, live: map<nat, Space>, i: nat)
    requires Isolated(s, n, live) && i in live
    ensures i < |s.dir| && s.dir[i] == live[i].entry && Built(s.mem, live[i]) && WellPlaced(live[i], n)
    ensures KernelTables(s.mem)
  {
    assert LiveIn(s, n, i, live[i]);
  }

  /** Creating a space and freeing it gives back its tables and keeps its data pages: exactly those stay marked. */
  lemma FreeLeaksDataPages(s: Vm, s': Vm, s'': Vm, n: nat, index: nat, sp: Space)
    requires CreateStep(s, s', n, index, sp) && FreeSpaceStep(s', s'', index)
    ensures |s''.bits| == |s.bits|
    ensures forall i | 0 <= i < |s.bits| ::
              s''.bits[i] <==> s.bits[i] || i in Interval(sp.data / PAGESIZE, sp.size)
  {
    forall i | 0 <= i < |s.bits|
      ensures s''.bits[i] <==> s.bits[i] || i in Interval(sp.data / PAGESIZE, sp.size)
    {
      assert i in Frames(sp) <==> i in TableFrames(sp.entry) || i in Interval(sp.data / PAGESIZE, sp.size);
    }
  }

  /* ---- from single allocations to a space ---- */

  /** What an allocation that did not answer 0 gives: `count` pages, none of them marked before, all marked after. */
  ghost predicate Gave(bits: seq<bool>, bits': seq<bool>, n: nat, count: nat, address: nat) {
    && Aligned(address) && 0 < address && count > 0 && address / PAGESIZE + count <= n <= |bits| == |bits'|
    && (forall f | f in Interval(address / PAGESIZE, count) :: !bits[f])
    && forall i | 0 <= i < |bits| :: bits'[i] <==> bits[i] || i in Interval(address / PAGESIZE, count)
  }

  lemma AllocGave(bits: seq<bool>, bits': seq<bool>, n: nat, count: nat, address: nat)
    requires AllocSpec(bits, n, count, bits', address) && address != 0 && n <= |bits|
    ensures Gave(bits, bits', n, count, address)
  {
  }

  /** Allocations that fail or succeed alike stay inside memory and keep the bitmap's length. */
  lemma AllocInRange(bits: seq<bool>, bits': seq<bool>, n: nat, count: nat, address: nat)
    requires AllocSpec(bits, n, count, bits', address) && 1 <= n <= |bits|
    ensures Aligned(address) && address / PAGESIZE < n && |bits'| == |bits|
  {
  }

  /** `b` is `b0` with exactly the pages `fs`, all unmarked before, marked as well. */
  ghost predicate Grown(b0: seq<bool>, b: seq<bool>, n: nat, fs: set<int>) {
    && |b| == |b0| && n <= |b0|
    && (forall f | f in fs :: 0 < f < n && !b0[f])
    && forall i | 0 <= i < |b0| :: b[i] <==> b0[i] || i in fs
  }

  lemma GrownBy(b0: seq<bool>, b: seq<bool>, b': seq<bool>, n: nat, fs: set<int>, count: nat, address: nat)
    requires Grown(b0, b, n, fs) && Gave(b, b', n, count, address)
    ensures Grown(b0, b', n, fs + Interval(address / PAGESIZE, count))
    ensures fs !! Interval(address / PAGESIZE, count)
    ensures Aligned(address)
  {
  }

  /** Four single pages allocated one after the other are four different unmarked pages. */
  lemma FourPages(b0: seq<bool>, b1: seq<bool>, b2: seq<bool>, b3: seq<bool>, b4: seq<bool>, n: nat,
                  a4: nat, a3: nat, a2: nat, a1: nat)
    requires Gave(b0, b1, n, 1, a4) && Gave(b1, b2, n, 1, a3) && Gave(b2, b3, n, 1, a2) && Gave(b3, b4, n, 1, a1)
    ensures var f4, f3, f2, f1 := a4 / PAGESIZE, a3 / PAGESIZE, a2 / PAGESIZE, a1 / PAGESIZE;
            && Grown(b0, b4, n, {f4, f3, f2, f1})
            && f4 != f3 && f4 != f2 && f4 != f1 && f3 != f2 && f3 != f1 && f2 != f1
            && Aligned(a4) && Aligned(a3) && Aligned(a2) && Aligned(a1)
  {
    var f4, f3, f2, f1 := a4 / PAGESIZE, a3 / PAGESIZE, a2 / PAGESIZE, a1 / PAGESIZE;
    assert n <= |b0|;
    hide Grown, Gave, Aligned;
    GrownByPage(b0, b0, b1, n, {}, a4);
    assert {} + {f4} == {f4};
    GrownByPage(b0, b1, b2, n, {f4}, a3);
    assert {f4} + {f3} == {f4, f3};
    GrownByPage(b0, b2, b3, n, {f4, f3}, a2);
    assert {f4, f3} + {f2} == {f4, f3, f2};
    GrownByPage(b0, b3, b4, n, {f4, f3, f2}, a1);
    assert {f4, f3, f2} + {f1} == {f4, f3, f2, f1};
  }

  /** Four single pages and a run of `size`, allocated one after the other, place a space well. */
  lemma PlacedByAllocs(b0: seq<bool>, b1: seq<bool>, b2: seq<bool>, b3: seq<bool>, b4: seq<bool>, b5: seq<bool>,
                       n: nat, sp: Space)
    requires Gave(b0, b1, n, 1, sp.entry.pml4) && Gave(b1, b2, n, 1, sp.entry.pml3)
    requires Gave(b2, b3, n, 1, sp.entry.pml2) && Gave(b3, b4, n, 1, sp.entry.pml1)
    requires Gave(b4, b5, n, sp.size, sp.data)
    requires n <= 0x10_0000 && 1 <= sp.size <= 512 && SmallFlags(sp.entry.flags)
    ensures WellPlaced(sp, n) && Grown(b0, b5, n, Frames(sp))
  {
    hide Grown, Gave;
    FourPages(b0, b1, b2, b3, b4, n, sp.entry.pml4, sp.entry.pml3, sp.entry.pml2, sp.entry.pml1);
    GrownBy(b0, b4, b5, n, TableFrames(sp.entry), sp.size, sp.data);
    GrownPositive(b0, b5, n, Frames(sp));
  }

  lemma GrownPositive(b0: seq<bool>, b: seq<bool>, n: nat, fs: set<int>)
    requires Grown(b0, b, n, fs)
    ensures forall f | f in fs :: 0 < f < n
  {
  }

  lemma GrownByPage(b0: seq<bool>, b: seq<bool>, b': seq<bool>, n: nat, fs: set<int>, address: nat)
    requires (fs == {} && b == b0 && n <= |b0|) || Grown(b0, b, n, fs)
    requires Gave(b, b', n, 1, address)
    ensures Grown(b0, b', n, fs + {address / PAGESIZE})
    ensures address / PAGESIZE !in fs && Aligned(address)
  {
    assert Interval(address / PAGESIZE, 1) == {address / PAGESIZE};
    GrownBy(b0, b, b', n, fs, 1, address);
  }

  /** Memory after the first four writes of createNewAddressSpace: the kernel's two top-level entries and the chain
      pml4 to pml3 to pml2. */
  ghost function TablesLinked(mem: seq<u64>, pml4: nat, pml3: nat, pml2: nat): (r: seq<u64>)
    requires pml4 / 8 + 512 <= |mem| && pml3 / 8 < |mem| && pml3 + 7 < TWO_TO_64 && pml2 + 7 < TWO_TO_64
    ensures |r| == |mem|
  {
    mem[pml4 / 8 + 256 := KPML3 + 7][pml4 / 8 + 511 := KPML3_HH + 7][pml4 / 8 := pml3 + 7][pml3 / 8 := pml2 + 7]
  }

  /** `mem'` is `mem` with `size` consecutive entries from `table` on: `physical`, `physical + stride` and so on, each
      with the flags. */
  ghost predicate Mapped(mem: seq<u64>, mem': seq<u64>, table: nat, size: nat, physical: nat, stride: nat, flags: nat)
  {
    && |mem'| == |mem| && table / 8 + size <= |mem|
    && forall w | 0 <= w < |mem| ::
         mem'[w] == if table / 8 <= w < table / 8 + size
                    then physical + (w - table / 8) * stride + flags else mem[w]
  }

  lemma WordAt(mem: seq<u64>, address: nat, i: nat)
    requires Aligned(address) && i < 512 && address / PAGESIZE * 512 + 512 <= |mem|
    ensures Word(mem, address + 8 * i) == mem[address / PAGESIZE * 512 + i]
    ensures address / 8 == address / PAGESIZE * 512
  {
    assert (address + 8 * i) / 8 == address / PAGESIZE * 512 + i;
  }

  /** The same writes by page number: what is in each word written, and that nothing else is. */
  lemma WritesByPage(mem: seq<u64>, m2: seq<u64>, m3: seq<u64>, f4: nat, f3: nat, f2: nat, f1: nat,
                     e3: u64, e2: u64, e1: u64, size: nat)
    requires f4 != f3 && f4 != f2 && f4 != f1 && f3 != f2 && f3 != f1 && f2 != f1 && size <= 512
    requires 512 * f4 + 512 <= |mem| && 512 * f3 + 512 <= |mem| && 512 * f2 + 512 <= |mem| && 512 * f1 + 512 <= |mem|
    requires m2 == mem[512 * f4 + 256 := KPML3 + 7][512 * f4 + 511 := KPML3_HH + 7][512 * f4 := e3]
                      [512 * f3 := e2][512 * f2 := e1]
    requires |m3| == |mem|
    requires forall w | 0 <= w < |mem| && !(512 * f1 <= w < 512 * f1 + size) :: m3[w] == m2[w]
    ensures m3[512 * f4] == e3 && m3[512 * f4 + 256] == KPML3 + 7 && m3[512 * f4 + 511] == KPML3_HH + 7
    ensures m3[512 * f3] == e2 && m3[512 * f2] == e1
    ensures forall w | 0 <= w < |mem| && w / 512 !in {f4, f3, f2, f1} :: m3[w] == mem[w]
  {
    forall w | 0 <= w < |mem| && w / 512 !in {f4, f3, f2, f1} ensures m3[w] == mem[w] {
      assert w / 512 != f1 ==> !(512 * f1 <= w < 512 * f1 + size);
    }
  }

  /** The entries of a space, by the words of its pages. */
  ghost predicate BuiltByPage(mem: seq<u64>, sp: Space) {
    var e := sp.entry;
    var f4, f3, f2, f1 := e.pml4 / PAGESIZE, e.pml3 / PAGESIZE, e.pml2 / PAGESIZE, e.pml1 / PAGESIZE;
    && 512 * f4 + 512 <= |mem| && 512 * f3 + 512 <= |mem| && 512 * f2 + 512 <= |mem| && 512 * f1 + 512 <= |mem|
    && Aligned(e.pml4) && Aligned(e.pml3) && Aligned(e.pml2) && Aligned(e.pml1) && sp.size <= 512
    && mem[512 * f4] == e.pml3 + 7 && mem[512 * f4 + 256] == KPML3 + 7 && mem[512 * f4 + 511] == KPML3_HH + 7
    && mem[512 * f3] == e.pml2 + 7 && mem[512 * f2] == e.pml1 + e.flags
    && forall w | 512 * f1 <= w < 512 * f1 + sp.size :: mem[w] == sp.data + (w - 512 * f1) * PAGESIZE + e.flags
  }

  lemma BuiltFromPages(mem: seq<u64>, sp: Space)
    requires BuiltByPage(mem, sp)
    ensures Built(mem, sp)
  {
    var e := sp.entry;
    hide Word;
    WordAt(mem, e.pml4, 0);
    WordAt(mem, e.pml4, 256);
    WordAt(mem, e.pml4, 511);
    WordAt(mem, e.pml3, 0);
    WordAt(mem, e.pml2, 0);
    forall i | 0 <= i < sp.size ensures Word(mem, e.pml1 + 8 * i) == sp.data + i * PAGESIZE + e.flags {
      WordAt(mem, e.pml1, i);
    }
  }

  /** The writes of a creation of 4 KiB pages, whatever the allocations answered. */
  ghost predicate SmallWrites(mem: seq<u64>, mem': seq<u64>, sp: Space) {
    var e := sp.entry;
    && e.pml4 / 8 + 512 <= |mem| && e.pml3 / 8 < |mem| && e.pml2 / 8 < |mem|
    && e.pml3 + 7 < TWO_TO_64 && e.pml2 + 7 < TWO_TO_64 && e.pml1 + e.flags < TWO_TO_64
    && Mapped(TablesLinked(mem, e.pml4, e.pml3, e.pml2)[e.pml2 / 8 := e.pml1 + e.flags], mem',
              e.pml1, sp.size, sp.data, PAGESIZE, e.flags)
  }

  /** Four aligned table addresses in the first n pages. */
  ghost predicate TablesFit(e: PageDirectoryEntry, n: nat) {
    && Aligned(e.pml4) && Aligned(e.pml3) && Aligned(e.pml2) && Aligned(e.pml1)
    && e.pml4 / PAGESIZE < n && e.pml3 / PAGESIZE < n && e.pml2 / PAGESIZE < n && e.pml1 / PAGESIZE < n
  }

  lemma PlacedTablesFit(sp: Space, n: nat)
    requires WellPlaced(sp, n)
    ensures TablesFit(sp.entry, n) && TablesApart(sp.entry) && sp.size <= 512
  {
    var e := sp.entry;
    assert e.pml4 / PAGESIZE in Frames(sp) && e.pml3 / PAGESIZE in Frames(sp);
    assert e.pml2 / PAGESIZE in Frames(sp) && e.pml1 / PAGESIZE in Frames(sp);
  }

  /** The writes touch no page but the four tables', which may be page 0. */
  lemma WritesStayInTables(mem: seq<u64>, mem': seq<u64>, sp: Space, n: nat)
    requires SmallWrites(mem, mem', sp) && TablesFit(sp.entry, n) && 512 * n <= |mem| && sp.size <= 512
    ensures |mem'| == |mem| && forall w | 0 <= w < |mem| && w / 512 !in TableFrames(sp.entry) :: mem'[w] == mem[w]
  {
    var e := sp.entry;
    TablesInMemory(e, n, |mem|);
    hide Aligned;
    var m2 := TablesLinked(mem, e.pml4, e.pml3, e.pml2)[e.pml2 / 8 := e.pml1 + e.flags];
    MappedByPage(m2, mem', e.pml1, sp.size, sp.data, PAGESIZE, e.flags);
    LinkedByPage(mem, e.pml4, e.pml3, e.pml2);
    hide Mapped, TablesLinked;
    WritesOutside(mem, m2, mem', e.pml4 / PAGESIZE, e.pml3 / PAGESIZE, e.pml2 / PAGESIZE, e.pml1 / PAGESIZE,
                  e.pml3 + 7, e.pml2 + 7, e.pml1 + e.flags, sp.size);
  }

  lemma WritesOutside(mem: seq<u64>, m2: seq<u64>, m3: seq<u64>, f4: nat, f3: nat, f2: nat, f1: nat,
                      e3: u64, e2: u64, e1: u64, size: nat)
    requires size <= 512
    requires 512 * f4 + 512 <= |mem| && 512 * f3 + 512 <= |mem| && 512 * f2 + 512 <= |mem| && 512 * f1 + 512 <= |mem|
    requires m2 == mem[512 * f4 + 256 := KPML3 + 7][512 * f4 + 511 := KPML3_HH + 7][512 * f4 := e3]
                      [512 * f3 := e2][512 * f2 := e1]
    requires |m3| == |mem|
    requires forall w | 0 <= w < |mem| && !(512 * f1 <= w < 512 * f1 + size) :: m3[w] == m2[w]
    ensures forall w | 0 <= w < |mem| && w / 512 !in {f4, f3, f2, f1} :: m3[w] == mem[w]
  {
    forall w | 0 <= w < |mem| && w / 512 !in {f4, f3, f2, f1} ensures m3[w] == mem[w] {
      assert w / 512 != f1 ==> !(512 * f1 <= w < 512 * f1 + size);
    }
  }

  /** The writes of createNewAddressSpace build the space, wherever its data lies, when its tables are four pages. */
  lemma BuiltByWrites(mem: seq<u64>, mem': seq<u64>, sp: Space, n: nat)
    requires SmallWrites(mem, mem', sp) && TablesFit(sp.entry, n) && TablesApart(sp.entry)
    requires 512 * n <= |mem| && sp.size <= 512
    ensures Built(mem', sp)
  {
    var e := sp.entry;
    hide Built, BuiltByPage, Word, Mapped, TablesLinked, TablesApart, Aligned;
    TablesInMemory(e, n, |mem|);
    SmallContents(mem, TablesLinked(mem, e.pml4, e.pml3, e.pml2)[e.pml2 / 8 := e.pml1 + e.flags], mem', sp);
    BuiltFromPages(mem', sp);
  }

  lemma SmallContents(mem: seq<u64>, m2: seq<u64>, m3: seq<u64>, sp: Space)
    requires var e := sp.entry;
             && TablesApart(e) && sp.size <= 512
             && Aligned(e.pml4) && Aligned(e.pml3) && Aligned(e.pml2) && Aligned(e.pml1)
             && 512 * (e.pml4 / PAGESIZE) + 512 <= |mem| && 512 * (e.pml3 / PAGESIZE) + 512 <= |mem|
             && 512 * (e.pml2 / PAGESIZE) + 512 <= |mem| && 512 * (e.pml1 / PAGESIZE) + 512 <= |mem|
             && e.pml4 / 8 == 512 * (e.pml4 / PAGESIZE) && e.pml3 / 8 == 512 * (e.pml3 / PAGESIZE)
             && e.pml2 / 8 == 512 * (e.pml2 / PAGESIZE) && e.pml1 / 8 == 512 * (e.pml1 / PAGESIZE)
             && e.pml3 + 7 < TWO_TO_64 && e.pml2 + 7 < TWO_TO_64 && e.pml1 + e.flags < TWO_TO_64
             && m2 == TablesLinked(mem, e.pml4, e.pml3, e.pml2)[e.pml2 / 8 := e.pml1 + e.flags]
             && Mapped(m2, m3, e.pml1, sp.size, sp.data, PAGESIZE, e.flags)
    ensures |m3| == |mem| && BuiltByPage(m3, sp)
    ensures forall w | 0 <= w < |mem| && w / 512 !in TableFrames(sp.entry) :: m3[w] == mem[w]
  {
    var e := sp.entry;
    MappedByPage(m2, m3, e.pml1, sp.size, sp.data, PAGESIZE, e.flags);
    LinkedByPage(mem, e.pml4, e.pml3, e.pml2);
    hide Aligned, Mapped, TablesLinked;
    WritesByPage(mem, m2, m3, e.pml4 / PAGESIZE, e.pml3 / PAGESIZE, e.pml2 / PAGESIZE, e.pml1 / PAGESIZE,
                 e.pml3 + 7, e.pml2 + 7, e.pml1 + e.flags, sp.size);
  }

  lemma LinkedByPage(mem: seq<u64>, pml4: nat, pml3: nat, pml2: nat)
    requires pml4 / 8 + 512 <= |mem| && pml3 / 8 < |mem| && pml3 + 7 < TWO_TO_64 && pml2 + 7 < TWO_TO_64
    requires pml4 / 8 == 512 * (pml4 / PAGESIZE) && pml3 / 8 == 512 * (pml3 / PAGESIZE)
    ensures TablesLinked(mem, pml4, pml3, pml2)
            == (var f4, f3 := pml4 / PAGESIZE, pml3 / PAGESIZE;
                mem[512 * f4 + 256 := KPML3 + 7][512 * f4 + 511 := KPML3_HH + 7]
                   [512 * f4 := pml3 + 7][512 * f3 := pml2 + 7])
  {
  }

  lemma MappedByPage(mem: seq<u64>, mem': seq<u64>, table: nat, size: nat, physical: nat, stride: nat, flags: nat)
    requires Mapped(mem, mem', table, size, physical, stride, flags) && table / 8 == 512 * (table / PAGESIZE)
    ensures var f := table / PAGESIZE;
            && |mem'| == |mem|
            && (forall w | 512 * f <= w < 512 * f + size ::
                  w < |mem| && mem'[w] == physical + (w - 512 * f) * stride + flags)
            && forall w | 0 <= w < |mem| && !(512 * f <= w < 512 * f + size) :: mem'[w] == mem[w]
  {
  }

  lemma TablesInMemory(e: PageDirectoryEntry, n: nat, words: nat)
    requires TablesFit(e, n) && 512 * n <= words
    ensures Aligned(e.pml4) && Aligned(e.pml3) && Aligned(e.pml2) && Aligned(e.pml1)
    ensures 512 * (e.pml4 / PAGESIZE) + 512 <= words && 512 * (e.pml3 / PAGESIZE) + 512 <= words
    ensures 512 * (e.pml2 / PAGESIZE) + 512 <= words && 512 * (e.pml1 / PAGESIZE) + 512 <= words
    ensures e.pml4 / 8 == 512 * (e.pml4 / PAGESIZE) && e.pml3 / 8 == 512 * (e.pml3 / PAGESIZE)
    ensures e.pml2 / 8 == 512 * (e.pml2 / PAGESIZE) && e.pml1 / 8 == 512 * (e.pml1 / PAGESIZE)
  {
  }
}
