/** The first-fit physical page allocator of kernel/mm/physicalPageManager.c. */
module PhysicalPages {
  import opened Words
  import opened MemUtils
  import opened FirstFit

  /** One entry of the firmware memory map; type 1 is usable memory. */
  datatype MmapEntry = MmapEntry(base: u64, length: u64, kind: nat)

  /** The pages below this one are always marked used: the first megabyte and 0x20000 bytes more. */
  const LOW_PAGES: nat := 0x120

  ghost predicate Marks(e: MmapEntry, page: int) {
    e.base / PAGESIZE <= page < e.base / PAGESIZE + e.length / PAGESIZE
  }

  ghost predicate MarkedBySome(entries: seq<MmapEntry>, page: int) {
    exists k :: 0 <= k < |entries| && entries[k].kind != 1 && Marks(entries[k], page)
  }

  function TotalLength(entries: seq<MmapEntry>): nat {
    if entries == [] then 0 else TotalLength(entries[..|entries| - 1]) + entries[|entries| - 1].length
  }

  lemma PageOfAddress(page: nat)
    ensures page * PAGESIZE / PAGESIZE == page && page * PAGESIZE % PAGESIZE == 0
  {
  }

  lemma BaseAdvances(i: nat, cnt: nat)
    requires cnt <= i && i < TWO_TO_64 / PAGESIZE - 1
    ensures U64((i - cnt) * PAGESIZE + (cnt + 1) * PAGESIZE) == (i + 1) * PAGESIZE
  {
  }

  lemma FullHasNoRun(bits: seq<bool>, n: nat, count: nat)
    requires n <= |bits| && forall j | 0 <= j < n :: bits[j]
    ensures count > 0 ==> !HasRun(bits, n, count)
  {
    forall b | 0 <= b && count > 0
      ensures !FreeRun(bits, n, b, count)
    {
      assert b < n ==> bits[b];
    }
  }

  lemma WrapOnce(a: nat, b: nat)
    ensures U64(U64(a) + b) == U64(a + b)
  {
  }

  class PhysicalPageManager {
    const bitmap: array<bv8>
    var totalDetectedMemory: u64

    /** The bitmap as it is found at boot, before any memory has been detected. */
    constructor (bitmap: array<bv8>)
      ensures this.bitmap == bitmap && totalDetectedMemory == 0
    {
      this.bitmap := bitmap;
      totalDetectedMemory := 0;
    }

    ghost function PageBits(): (bits: seq<bool>)
      reads bitmap
      ensures |bits| == 8 * bitmap.Length
    {
      Bits(bitmap[..])
    }

    function PageCount(): nat
      reads this
    {
      totalDetectedMemory / PAGESIZE
    }

    /** Every detected page has its bit. */
    ghost predicate Valid()
      reads this
    {
      PageCount() <= 8 * bitmap.Length
    }

    method AllocateRegion(start: u64, length: u64)
      requires start / PAGESIZE + length / PAGESIZE <= 8 * bitmap.Length
      modifies bitmap
      ensures PageBits() == Fill(old(PageBits()), start / PAGESIZE, length / PAGESIZE, true)
    {
      SetRun(bitmap, start / PAGESIZE, length / PAGESIZE);
    }

    /** `initPMM`. At boot no memory has been detected yet, so the memset of line 18 clears nothing. */
    method InitPMM(entries: seq<MmapEntry>)
      requires totalDetectedMemory == 0 && LOW_PAGES <= 8 * bitmap.Length
      requires forall e | e in entries && e.kind != 1 ::
        e.base / PAGESIZE + e.length / PAGESIZE <= 8 * bitmap.Length
      requires U64(TotalLength(entries)) / PAGESIZE <= 8 * bitmap.Length
      modifies this, bitmap
      ensures Valid() && totalDetectedMemory == U64(TotalLength(entries))
      ensures GapFree(entries) && EndOf(entries) < TWO_TO_64 ==> totalDetectedMemory == EndOf(entries)
      ensures InitSpec(old(PageBits()), entries, PageBits())
    {
      MemSet(bitmap, 0, totalDetectedMemory / PAGESIZE);
      assert bitmap[0..] == bitmap[..];
      ghost var found := PageBits();
      for k := 0 to |entries|
        invariant totalDetectedMemory == U64(TotalLength(entries[..k]))
        invariant RegionsMarked(found, entries[..k], PageBits())
      {
        ghost var bits := PageBits();
        assert entries[..k + 1][..k] == entries[..k];
        WrapOnce(TotalLength(entries[..k]), entries[k].length);
        totalDetectedMemory := U64(totalDetectedMemory + entries[k].length);
        if entries[k].kind != 1 {
          AllocateRegion(entries[k].base, entries[k].length);
        }
        RegionsMarkedStep(found, entries, k, bits, PageBits());
      }
      assert entries[..|entries|] == entries;
      AllocateRegion(0, 0x100000 + 0x20000);
      if GapFree(entries) && EndOf(entries) < TWO_TO_64 {
        DetectedPagesIff(entries);
      }
    }

    method FirstFreePage() returns (page: int)
      requires Valid()
      ensures page == -1 ==> forall j | 0 <= j < PageCount() :: PageBits()[j]
      ensures page != -1 ==> 0 <= page < PageCount() && !PageBits()[page]
                             && forall j | 0 <= j < page :: PageBits()[j]
    {
      for i := 0 to totalDetectedMemory / PAGESIZE
        invariant forall j | 0 <= j < i :: PageBits()[j]
      {
        if !IsSet(bitmap[..], i) {
          return i;
        }
      }
      return -1;
    }

    /** Lines 48 to 50: mark the run found. */
    method Take(page: nat, count: u64)
      requires Valid() && count > 0 && IsFirstFit(PageBits(), PageCount(), count, page)
      modifies bitmap
      ensures AllocSpec(old(PageBits()), PageCount(), count, PageBits(), page * PAGESIZE)
    {
      PageOfAddress(page);
      SetRun(bitmap, page, count);
    }

    /** `physicalPageAlloc`, one call under its lock. Addresses are 64-bit words: on a full bitmap the search
        starts at page 2^64 - 1 and ends at once. */
    method PhysicalPageAlloc(count: u64) returns (address: u64)
      requires Valid()
      modifies bitmap
      ensures AllocSpec(old(PageBits()), PageCount(), count, PageBits(), address)
    {
      hide FreeRun, HasRun, IsFirstFit, Searching;
      var first := FirstFreePage();
      var cnt := 0;
      var base := U64(first * PAGESIZE);
      var i := U64(first);
      ghost var bits, n := PageBits(), PageCount();
      if first != -1 {
        SearchFromFirstFree(bits, n, count, first);
      } else {
        FullHasNoRun(bits, n, count);
      }
      while i < totalDetectedMemory / PAGESIZE
        invariant PageBits() == bits
        invariant first == -1 ==> i == TWO_TO_64 - 1
        invariant first != -1 ==> cnt <= i <= n && Searching(bits, n, count, i, cnt) && base == (i - cnt) * PAGESIZE
        decreases n - i
      {
        if IsSet(bitmap[..], i) {
          SearchBlocked(bits, n, count, i, cnt);
          BaseAdvances(i, cnt);
          base := U64(base + (cnt + 1) * PAGESIZE);
          cnt := 0;
          i := i + 1;
          continue;
        }
        SearchDone(bits, n, count, i, cnt);
        cnt := cnt + 1;
        if cnt == count {
          PageOfAddress(i + 1 - cnt);
          Take(base / PAGESIZE, count);
          return base;
        }
        i := i + 1;
      }
      if first != -1 {
        SearchDone(bits, n, count, i, cnt);
      }
      assert !(count > 0 && HasRun(bits, n, count));
      return 0;
    }

    /** `physicalPageFree`. */
    method PhysicalPageFree(base: u64, count: u64)
      requires RoundUp(base, PAGESIZE) + count <= 8 * bitmap.Length
      modifies bitmap
      ensures PageBits() == Fill(old(PageBits()), RoundUp(base, PAGESIZE), count, false)
    {
      ClearRun(bitmap, RoundUp(base, PAGESIZE), count);
    }
  }

  /** What one allocation answers and does: the lowest run of `count` free pages, marked and nothing else, or
      0 and no change when there is none or when no page is asked for. */
  ghost predicate AllocSpec(bits: seq<bool>, n: nat, count: nat, bits': seq<bool>, address: nat) {
    if count > 0 && HasRun(bits, n, count)
    then && address % PAGESIZE == 0 && IsFirstFit(bits, n, count, address / PAGESIZE)
         && bits' == Fill(bits, address / PAGESIZE, count, true)
    else address == 0 && bits' == bits
  }

  ghost predicate RegionsMarked(bits: seq<bool>, entries: seq<MmapEntry>, bits': seq<bool>) {
    && |bits'| == |bits|
    && forall page :: 0 <= page < |bits| ==> (bits'[page] <==> bits[page] || MarkedBySome(entries, page))
  }

  lemma RegionsMarkedStep(found: seq<bool>, entries: seq<MmapEntry>, k: nat, bits: seq<bool>, bits': seq<bool>)
    requires k < |entries| && RegionsMarked(found, entries[..k], bits)
    requires entries[k].kind == 1 ==> bits' == bits
    requires entries[k].base / PAGESIZE + entries[k].length / PAGESIZE <= |bits| || entries[k].kind == 1
    requires entries[k].kind != 1 ==>
      bits' == Fill(bits, entries[k].base / PAGESIZE, entries[k].length / PAGESIZE, true)
    ensures RegionsMarked(found, entries[..k + 1], bits')
  {
    var es, es' := entries[..k], entries[..k + 1];
    forall page | 0 <= page < |found|
      ensures MarkedBySome(es', page) <==> MarkedBySome(es, page) || (entries[k].kind != 1 && Marks(entries[k], page))
    {
      if MarkedBySome(es, page) {
        var j :| 0 <= j < |es| && es[j].kind != 1 && Marks(es[j], page);
        assert es'[j] == es[j];
      }
      if MarkedBySome(es', page) {
        var j :| 0 <= j < |es'| && es'[j].kind != 1 && Marks(es'[j], page);
        assert j < k ==> es[j] == es'[j];
      }
      assert es'[k] == entries[k];
    }
  }

  /** What initialisation leaves: pages already set, the low pages, and what each unusable region marks. */
  ghost predicate InitSpec(bits: seq<bool>, entries: seq<MmapEntry>, bits': seq<bool>) {
    && |bits'| == |bits|
    && forall page :: 0 <= page < |bits| ==>
         (bits'[page] <==> bits[page] || page < LOW_PAGES || MarkedBySome(entries, page))
  }

  /** With page 0 reserved the answer 0 means that no such run exists, and nothing else. */
  lemma ZeroMeansNoRun(bits: seq<bool>, n: nat, count: nat, bits': seq<bool>, address: nat)
    requires AllocSpec(bits, n, count, bits', address) && count > 0
    requires bits != [] && bits[0]
    ensures address == 0 <==> !HasRun(bits, n, count)
  {
  }

  /** Freeing what an allocation returned gives back the bitmap from before it. */
  lemma AllocThenFreeRestores(bits: seq<bool>, n: nat, count: nat, bits': seq<bool>, address: u64)
    requires AllocSpec(bits, n, count, bits', address) && HasRun(bits, n, count) && count > 0
    requires address + PAGESIZE <= TWO_TO_64
    ensures RoundUp(address, PAGESIZE) + count <= |bits|
    ensures Fill(bits', RoundUp(address, PAGESIZE), count, false) == bits
  {
    FillUndone(bits, n, address / PAGESIZE, count);
  }

  /* ---- what initPMM marks against what the memory map reserves ---- */

  /** Some byte of the region lies in the page. */
  ghost predicate Touches(e: MmapEntry, page: int) {
    e.length > 0 && e.base / PAGESIZE <= page <= (e.base + e.length - 1) / PAGESIZE
  }

  lemma TouchesMeansSomeByte(e: MmapEntry, page: int)
    ensures Touches(e, page) <==> exists a :: e.base <= a < e.base + e.length && a / PAGESIZE == page
  {
    if Touches(e, page) {
      var a := if page == e.base / PAGESIZE then e.base else page * PAGESIZE;
      assert e.base <= a < e.base + e.length && a / PAGESIZE == page;
    }
  }

  /** `allocateRegion` marks exactly the pages a region touches when the region is empty or page-aligned at both
      ends, and only then. */
  lemma MarksExactlyWhenAligned(e: MmapEntry)
    ensures (forall page :: Marks(e, page) <==> Touches(e, page))
            <==> e.length == 0 || (e.base % PAGESIZE == 0 && e.length % PAGESIZE == 0)
  {
    if e.length > 0 && !(e.base % PAGESIZE == 0 && e.length % PAGESIZE == 0) {
      var missed := e.base / PAGESIZE + e.length / PAGESIZE;
      assert Touches(e, missed) && !Marks(e, missed);
    }
  }

  /** On a clear bitmap and a page-aligned memory map, initialisation marks the low pages and the pages of
      unusable memory, and no others. */
  lemma InitMarksExactlyTheReserved(bits: seq<bool>, entries: seq<MmapEntry>, bits': seq<bool>, page: nat)
    requires InitSpec(bits, entries, bits') && page < |bits| && !bits[page]
    requires forall e | e in entries && e.kind != 1 :: e.base % PAGESIZE == 0 && e.length % PAGESIZE == 0
    ensures bits'[page] <==> page < LOW_PAGES || exists e :: e in entries && e.kind != 1 && Touches(e, page)
  {
    forall e | e in entries && e.kind != 1
      ensures Marks(e, page) <==> Touches(e, page)
    {
      MarksExactlyWhenAligned(e);
    }
    if MarkedBySome(entries, page) {
      var k :| 0 <= k < |entries| && entries[k].kind != 1 && Marks(entries[k], page);
      assert entries[k] in entries;
    }
  }

  /* ---- how much memory initPMM detects ---- */

  /** A region counts with its length whatever its kind. */
  lemma OneRegionCounts(e: MmapEntry)
    ensures TotalLength([e]) == e.length
  {
    assert [e][..0] == [];
  }

  lemma {:induction false} TotalOfBoth(a: seq<MmapEntry>, b: seq<MmapEntry>)
    ensures TotalLength(a + b) == TotalLength(a) + TotalLength(b)
    decreases |b|
  {
    if b == [] {
      assert a + b == a;
    } else {
      var last := |b| - 1;
      TotalOfBoth(a, b[..last]);
      assert (a + b)[..|a + b| - 1] == a + b[..last];
    }
  }

  /** Regions in address order that do not overlap. */
  ghost predicate InOrder(entries: seq<MmapEntry>) {
    forall k | 0 <= k < |entries| - 1 :: entries[k].base + entries[k].length <= entries[k + 1].base
  }

  /** The regions cover everything from address 0 to the end of the last. */
  ghost predicate GapFree(entries: seq<MmapEntry>) {
    && (entries != [] ==> entries[0].base == 0)
    && forall k | 0 <= k < |entries| - 1 :: entries[k].base + entries[k].length == entries[k + 1].base
  }

  function EndOf(entries: seq<MmapEntry>): nat {
    if entries == [] then 0 else entries[|entries| - 1].base + entries[|entries| - 1].length
  }

  /** The lengths of a map in order add up to at most its end, and to exactly its end if and only if it has no gap. */
  lemma {:induction false} TotalIsEndIff(entries: seq<MmapEntry>)
    requires InOrder(entries)
    ensures TotalLength(entries) <= EndOf(entries)
    ensures TotalLength(entries) == EndOf(entries) <==> GapFree(entries)
  {
    if entries != [] {
      var last := |entries| - 1;
      var before, e := entries[..last], entries[last];
      assert forall k | 0 <= k < |before| :: before[k] == entries[k];
      TotalIsEndIff(before);
      assert entries == before + [e];
      TotalOfBoth(before, [e]);
      OneRegionCounts(e);
      GapFreeStep(before, e);
    }
  }

  lemma GapFreeStep(before: seq<MmapEntry>, e: MmapEntry)
    ensures GapFree(before + [e]) <==> GapFree(before) && EndOf(before) == e.base
  {
    var all := before + [e];
    assert forall k | 0 <= k < |before| :: all[k] == before[k];
    if before != [] {
      assert all[|before| - 1] == before[|before| - 1] && all[|before|] == e;
    }
  }

  predicate WholePageBelow(page: nat, end: nat) {
    (page + 1) * PAGESIZE <= end
  }

  /** So for a map in order below 2^64, every whole page below the map's end is detected if and only if less than a
      page's worth is lost to gaps; without gaps all memory up to the end is. */
  lemma DetectedPagesIff(entries: seq<MmapEntry>)
    requires InOrder(entries) && EndOf(entries) < TWO_TO_64
    ensures var detected := U64(TotalLength(entries));
            && (GapFree(entries) <==> detected == EndOf(entries))
            && ((forall page: nat | WholePageBelow(page, EndOf(entries)) :: page < detected / PAGESIZE)
                <==> detected / PAGESIZE == EndOf(entries) / PAGESIZE)
  {
    TotalIsEndIff(entries);
    var detected, end := U64(TotalLength(entries)), EndOf(entries);
    assert detected == TotalLength(entries) <= end;
    assert detected / PAGESIZE < end / PAGESIZE ==> WholePageBelow(detected / PAGESIZE, end);
  }

  /* ---- whole runs ---- */

  /** The bitmap and the extents handed out; a freed extent stays behind as a dead entry. */
  datatype Pages = Pages(bits: seq<bool>, live: seq<Extent>)

  ghost predicate AllocStep(s: Pages, s': Pages, n: nat, count: nat, address: nat) {
    && AllocSpec(s.bits, n, count, s'.bits, address)
    && s'.live == if address == 0 then s.live else s.live + [Extent(address / PAGESIZE, count)]
  }

  ghost predicate FreeStep(s: Pages, s': Pages, k: nat) {
    && k < |s.live| && s.live[k].block + s.live[k].size <= |s.bits|
    && s'.bits == Fill(s.bits, s.live[k].block, s.live[k].size, false)
    && s'.live == s.live[k := Extent(0, 0)]
  }

  ghost predicate PageStep(s: Pages, s': Pages, n: nat) {
    || (exists count: nat, address: nat :: AllocStep(s, s', n, count, address))
    || (exists k: nat :: FreeStep(s, s', k))
  }

  /** A run starts with only the reserved pages marked; every free matches a live allocation. */
  ghost predicate PageRun(run: seq<Pages>, n: nat, reserved: set<int>) {
    && run != [] && run[0].live == []
    && n <= |run[0].bits| && 0 in reserved
    && (forall i | i in reserved :: 0 <= i < n)
    && (forall i | 0 <= i < n :: run[0].bits[i] <==> i in reserved)
    && forall t | 0 <= t < |run| - 1 :: PageStep(run[t], run[t + 1], n)
  }

  lemma DeadEntryAppended(bits: seq<bool>, n: nat, reserved: set<int>, exts: seq<Extent>)
    requires Ledger(bits, n, reserved, exts)
    ensures Ledger(bits, n, reserved, exts + [Extent(0, 0)])
  {
    var more := exts + [Extent(0, 0)];
    forall k, i | 0 <= k < |more| && Owns(more[k], i)
      ensures k < |exts| && Owns(exts[k], i)
    {
    }
    forall i | OwnedBySome(exts, i) ensures OwnedBySome(more, i) {
      var k :| 0 <= k < |exts| && Owns(exts[k], i);
      assert Owns(more[k], i);
    }
  }

  lemma StepKeepsLedger(s: Pages, s': Pages, n: nat, reserved: set<int>)
    requires Ledger(s.bits, n, reserved, s.live) && PageStep(s, s', n) && 0 in reserved && n > 0
    ensures Ledger(s'.bits, n, reserved, s'.live)
  {
    if k: nat :| FreeStep(s, s', k) {
      LedgerRelease(s.bits, n, reserved, s.live, k);
    } else {
      var count: nat, address: nat :| AllocStep(s, s', n, count, address);
      if count > 0 && HasRun(s.bits, n, count) {
        ZeroMeansNoRun(s.bits, n, count, s'.bits, address);
        DeadEntryAppended(s.bits, n, reserved, s.live);
        LedgerPlace(s.bits, n, reserved, s.live + [Extent(0, 0)], |s.live|, address / PAGESIZE, count);
        assert s'.live == (s.live + [Extent(0, 0)])[|s.live| := Extent(address / PAGESIZE, count)];
      }
    }
  }

  /** Over every run of allocations and matching frees: live extents are pairwise disjoint, in range and off the
      reserved pages, a page is marked exactly when it is reserved or owned, and the number of marked pages is the
      reserved pages plus the live counts. */
  lemma {:induction false} RunOwnsAndConserves(run: seq<Pages>, n: nat, reserved: set<int>, t: nat)
    requires PageRun(run, n, reserved) && t < |run|
    ensures Ledger(run[t].bits, n, reserved, run[t].live)
    ensures |Used(run[t].bits, n)| == |reserved| + TotalSize(run[t].live)
  {
    if t > 0 {
      RunOwnsAndConserves(run, n, reserved, t - 1);
      assert PageStep(run[t - 1], run[t - 1 + 1], n);
      StepKeepsLedger(run[t - 1], run[t], n, reserved);
    }
    LedgerConserves(run[t].bits, n, reserved, run[t].live);
  }
}
