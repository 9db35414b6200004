/** The kernel heap of kernel/mm/kHeap.c as a value: a first-fit block bitmap, the side table of allocations that must
    agree with it, and `krealloc`, which frees before it copies. */
module HeapModel {
  import opened Words
  import opened MemUtils
  import opened FirstFit

  const BLOCKSIZE: nat := 32
  const WORDS_PER_BLOCK: nat := 4

  /** The block bitmap and the side table. */
  datatype Heap = Heap(bits: seq<bool>, table: seq<Extent>)

  ghost predicate Dead(e: Extent) {
    e.size == 0
  }

  /** Live entries are in-bounds, pairwise disjoint runs whose union is exactly the set bits; dead entries are
      (0, 0); the table is at least as long as the bitmap. */
  ghost predicate HeapInv(h: Heap, n: nat) {
    && Ledger(h.bits, n, {}, h.table)
    && n <= |h.table|
    && forall k | 0 <= k < |h.table| && Dead(h.table[k]) :: h.table[k].block == 0
  }

  ghost predicate FirstDead(table: seq<Extent>, slot: int) {
    && 0 <= slot < |table| && Dead(table[slot])
    && forall k | 0 <= k < slot :: !Dead(table[k])
  }

  /** `kmalloc` for `count` blocks: the lowest run, recorded in the first dead entry; base -1 and no change when
      there is no such run or no block is asked for. */
  ghost predicate MallocStep(h: Heap, h': Heap, n: nat, count: nat, base: int) {
    if count > 0 && HasRun(h.bits, n, count)
    then && base >= 0 && IsFirstFit(h.bits, n, count, base)
         && h'.bits == Fill(h.bits, base, count, true)
         && exists slot :: FirstDead(h.table, slot) && h'.table == h.table[slot := Extent(base, count)]
    else base == -1 && h' == h
  }

  /** The entry `kfree` picks for a block: the first one in the table whose block number matches. */
  ghost predicate FirstMatch(table: seq<Extent>, block: nat, i: int) {
    && 0 <= i < |table| && table[i].block == block
    && forall k | 0 <= k < i :: table[k].block != block
  }

  ghost predicate FreeStep(h: Heap, h': Heap, block: nat, released: nat) {
    exists i :: FirstMatch(h.table, block, i) && FreeAt(h, h', i) && released == h.table[i].size
  }

  ghost predicate FreeAt(h: Heap, h': Heap, i: int) {
    && 0 <= i < |h.table| && h.table[i].block + h.table[i].size <= |h.bits|
    && h'.bits == Fill(h.bits, h.table[i].block, h.table[i].size, false)
    && h'.table == h.table[i := Extent(0, 0)]
  }

  /** The entry that an allocation fills was dead, and no lower one was; every other entry stays. */
  lemma MallocFillsLowest(h: Heap, h': Heap, n: nat, count: nat, base: int, k: nat)
    requires MallocStep(h, h', n, count, base) && base >= 0 && k < |h.table|
    ensures |h'.table| == |h.table|
    ensures h'.table[k] == if h.table[k].size == 0 && (forall j | 0 <= j < k :: h.table[j].size != 0)
                           then Extent(base, count) else h.table[k]
  {
  }

  lemma MallocKeepsInv(h: Heap, h': Heap, n: nat, count: nat, base: int)
    requires HeapInv(h, n) && MallocStep(h, h', n, count, base)
    ensures HeapInv(h', n)
  {
    if count > 0 && HasRun(h.bits, n, count) {
      var slot :| FirstDead(h.table, slot) && h'.table == h.table[slot := Extent(base, count)];
      LedgerPlace(h.bits, n, {}, h.table, slot, base, count);
    }
  }

  lemma FreeKeepsInv(h: Heap, h': Heap, n: nat, i: nat)
    requires HeapInv(h, n) && FreeAt(h, h', i)
    ensures HeapInv(h', n)
  {
    LedgerRelease(h.bits, n, {}, h.table, i);
  }

  ghost predicate HeapStep(h: Heap, h': Heap, n: nat) {
    || (exists count: nat, base: int :: MallocStep(h, h', n, count, base))
    || (exists block: nat, released: nat :: FreeStep(h, h', block, released))
  }

  /** Every run of `kmalloc` and `kfree` keeps the bitmap and the side table in agreement, as they are in an empty
      heap, and the set bits always number the sum of the live sizes. */
  lemma {:induction false} RunKeepsInv(run: seq<Heap>, n: nat, t: nat)
    requires t < |run| && HeapInv(run[0], n)
    requires forall k | 0 <= k < |run| - 1 :: HeapStep(run[k], run[k + 1], n)
    ensures HeapInv(run[t], n)
    ensures |Used(run[t].bits, n)| == TotalSize(run[t].table)
  {
    if t > 0 {
      RunKeepsInv(run, n, t - 1);
      var h, h' := run[t - 1], run[t - 1 + 1];
      assert HeapStep(h, h', n);
      if count: nat, base: int :| MallocStep(h, h', n, count, base) {
        MallocKeepsInv(h, h', n, count, base);
      } else {
        var block: nat, released: nat :| FreeStep(h, h', block, released);
        var i :| FirstMatch(h.table, block, i) && FreeAt(h, h', i);
        FreeKeepsInv(h, h', n, i);
      }
    }
    LedgerConserves(run[t].bits, n, {}, run[t].table);
  }

  /** Freeing a live entry releases exactly its blocks if and only if its block number is not 0 or no dead entry
      precedes it; otherwise nothing changes and the answer is 0. */
  lemma FreeIsExactIff(h: Heap, h': Heap, n: nat, k: nat, released: nat)
    requires HeapInv(h, n) && k < |h.table| && !Dead(h.table[k])
    requires FreeStep(h, h', h.table[k].block, released)
    ensures var exact := h.table[k].block != 0 || forall j | 0 <= j < k :: !Dead(h.table[j]);
            && (FreeAt(h, h', k) <==> exact)
            && (exact ==> released == h.table[k].size)
            && (!exact ==> h' == h && released == 0)
  {
    var e := h.table[k];
    var i :| FirstMatch(h.table, e.block, i) && FreeAt(h, h', i) && released == h.table[i].size;
    assert i <= k;
    if i != k {
      assert !Owns(h.table[i], e.block) by {
        assert Owns(e, e.block);
      }
      assert Dead(h.table[i]) && e.block == 0;
      assert h' == h;
      assert h'.table[k] != Extent(0, 0);
    }
  }

  /** With all blocks free, bitmap and table agree if and only if every entry is (0, 0). */
  lemma EmptyHeapAgreesIff(h: Heap, n: nat)
    requires n <= |h.bits| && n <= |h.table| && forall i | 0 <= i < |h.bits| :: !h.bits[i]
    ensures HeapInv(h, n) <==> forall k | 0 <= k < |h.table| :: h.table[k] == Extent(0, 0)
  {
    if HeapInv(h, n) {
      forall k | 0 <= k < |h.table| ensures h.table[k] == Extent(0, 0) {
        if !Dead(h.table[k]) {
          assert Owns(h.table[k], h.table[k].block) && OwnedBySome(h.table, h.table[k].block);
        }
      }
    }
  }

  lemma FreshHeapAgreesIff(h: Heap, n: nat, found: seq<Extent>, zeroed: nat)
    requires n <= |h.bits| && n <= |h.table| == |found| && forall i | 0 <= i < |h.bits| :: !h.bits[i]
    requires forall k | 0 <= k < |found| :: h.table[k] == if k < zeroed then Extent(0, 0) else found[k]
    ensures HeapInv(h, n) <==> forall k | zeroed <= k < |found| :: found[k] == Extent(0, 0)
  {
    EmptyHeapAgreesIff(h, n);
    hide HeapInv;
    assert forall k | zeroed <= k < |found| :: h.table[k] == found[k];
  }

  /* ---- bytes ---- */

  /** The address is that of the first byte of a live run of blocks that holds the size and is not a block too long; the
      bytes asked for lie inside the heap and belong to no other live run. */
  ghost predicate HoldsBytes(h: Heap, begin: nat, n: nat, address: nat, size: nat) {
    exists k: nat :: k < |h.table| && !Dead(h.table[k]) && StartsAt(h.table[k], begin, address, size)
      && HIGH_VMA + begin <= address && address + size <= HIGH_VMA + begin + 32 * n
      && forall j: nat, a: nat | j < |h.table| && j != k && address <= a < address + size ::
           !HasByte(h.table[j], begin, a)
  }

  ghost predicate StartsAt(e: Extent, begin: nat, address: nat, size: nat) {
    address == HIGH_VMA + begin + 32 * e.block && size <= 32 * e.size < size + 32
  }

  /** The byte at a virtual address lies in the run. */
  ghost predicate HasByte(e: Extent, begin: nat, a: nat) {
    HIGH_VMA + begin + 32 * e.block <= a < HIGH_VMA + begin + 32 * (e.block + e.size)
  }

  lemma MallocHoldsBytes(h: Heap, h': Heap, n: nat, begin: nat, size: u64, base: int, address: nat)
    requires HeapInv(h', n) && MallocStep(h, h', n, RoundUp(size, 32), base) && base >= 0
    requires address == HIGH_VMA + begin + 32 * base
    ensures HoldsBytes(h', begin, n, address, size)
  {
    var count := RoundUp(size, 32);
    CountCovers(size);
    hide RoundUp;
    var slot :| FirstDead(h.table, slot) && h'.table == h.table[slot := Extent(base, count)];
    assert StartsAt(h'.table[slot], begin, address, size);
    forall j: nat, a: nat | j < |h'.table| && j != slot && address <= a < address + size
      ensures !HasByte(h'.table[j], begin, a)
    {
      if HasByte(h'.table[j], begin, a) {
        BlockOfByte(h'.table[j], begin, a);
        BlockOfByte(h'.table[slot], begin, a);
      }
    }
  }

  /** The blocks asked for are the least that hold the size, unless the 64-bit sum wraps and none are. */
  lemma CountCovers(size: u64)
    ensures RoundUp(size, 32) > 0 ==> size <= 32 * RoundUp(size, 32) < size + 32
  {
    RoundUpCoversIff(size, 32);
  }

  lemma BlockOfByte(e: Extent, begin: nat, a: nat)
    requires HasByte(e, begin, a)
    ensures Owns(e, (a - HIGH_VMA - begin) / 32)
  {
  }

  /* ---- reallocation ---- */

  /** Memory after the copy at the end of `krealloc`: `words` words from block `was` to block `base`. */
  ghost function Copied(mem: seq<u64>, base: nat, was: nat, words: nat): (r: seq<u64>)
    requires 4 * base + words <= |mem| && 4 * was + words <= |mem|
    ensures |r| == |mem|
  {
    seq(|mem|, w requires 0 <= w < |mem| =>
      if 4 * base <= w < 4 * base + words then mem[CopiedFrom(4 * base, 4 * was, w - 4 * base)] else mem[w])
  }

  /** Word `w` of the block at `was` is found again as word `w` of the block at `base`. */
  ghost predicate WordMoved(mem: seq<u64>, mem': seq<u64>, base: nat, was: nat, w: nat) {
    4 * base + w < |mem'| && 4 * was + w < |mem| && mem'[4 * base + w] == mem[4 * was + w]
  }

  ghost predicate WordKept(mem: seq<u64>, base: nat, was: nat, words: nat, w: nat) {
    && 4 * base + words <= |mem| && 4 * was + words <= |mem|
    && WordMoved(mem, Copied(mem, base, was, words), base, was, w)
  }

  /** The old contents survive being freed first: the new run is the first fit after the release, so it starts at
      or below the old block or wholly past it, and the forward copy never overwrites a word it has yet to read.
      Word w of the new block is word w of the old one for the `size` words copied. */
  lemma ReallocCopiesOldWords(h: Heap, freed: Heap, h': Heap, n: nat, k: nat, count: nat, base: int,
                              mem: seq<u64>, w: nat)
    requires HeapInv(h, n) && FreeAt(h, freed, k) && MallocStep(freed, h', n, count, base) && base >= 0
    requires |mem| == 4 * n && w < h.table[k].size
    ensures WordKept(mem, base, h.table[k].block, h.table[k].size, w)
  {
    var e := h.table[k];
    CopyInBounds(freed.bits, n, e.block, e.size, count, base);
    CopyExact(4 * base, 4 * e.block, e.size);
  }

  /** The copy stays inside the heap even when the new block is smaller than what is copied: such a block is placed at
      or below the old one. */
  lemma CopyInBounds(bits: seq<bool>, n: nat, was: nat, size: nat, count: nat, base: nat)
    requires FreeRun(bits, n, was, size) && count > 0 && IsFirstFit(bits, n, count, base)
    ensures base <= was || (was + size <= base && size < count)
    ensures 4 * base + size <= 4 * n && 4 * was + size <= 4 * n
  {
    FirstFitNeverStraddles(bits, n, was, size, count, base);
    assert count <= size ==> FreeRun(bits, n, was, count);
  }

  /** The first match of the block, once released, leaves room for the new size. */
  ghost predicate ReallocHasRoom(h: Heap, n: nat, block: nat, size: u64) {
    exists i :: FirstMatch(h.table, block, i) && h.table[i].block + h.table[i].size <= |h.bits|
      && ReallocCount(h.table[i].size, size) > 0
      && HasRun(Fill(h.bits, h.table[i].block, h.table[i].size, false), n, ReallocCount(h.table[i].size, size))
  }

  lemma RoomIff(h: Heap, freed: Heap, n: nat, block: nat, released: nat, size: u64)
    requires FreeStep(h, freed, block, released)
    ensures ReallocHasRoom(h, n, block, size)
            <==> ReallocCount(released, size) > 0 && HasRun(freed.bits, n, ReallocCount(released, size))
  {
    var i :| FirstMatch(h.table, block, i) && FreeAt(h, freed, i) && released == h.table[i].size;
    hide ReallocCount, HasRun;
    assert forall j | FirstMatch(h.table, block, j) :: j == i;
  }

  /** The blocks released are free afterwards, and some block is. */
  lemma FreeAfterRelease(h: Heap, freed: Heap, n: nat, block: nat, released: nat)
    requires HeapInv(h, n) && FreeStep(h, freed, block, released) && block < n
    requires exists i :: FirstMatch(h.table, block, i)
                         && (!Dead(h.table[i]) || exists f :: 0 <= f < n && !h.bits[f])
    ensures n <= |freed.bits| && FreeRun(freed.bits, n, block, released) && block + released <= n
    ensures exists f :: 0 <= f < n && !freed.bits[f]
  {
    var i :| FirstMatch(h.table, block, i) && FreeAt(h, freed, i) && released == h.table[i].size;
    if Dead(h.table[i]) {
      var f :| 0 <= f < n && !h.bits[f];
      assert !freed.bits[f];
    } else {
      assert !freed.bits[block];
    }
  }

  lemma ReallocDone(h: Heap, freed: Heap, h': Heap, n: nat, block: nat, size: u64, released: nat, base: nat,
                    mem0: seq<u64>, mem1: seq<u64>)
    requires FreeStep(h, freed, block, released) && MallocStep(freed, h', n, ReallocCount(released, size), base)
    requires |mem1| == |mem0| && 4 * base + released <= |mem0| && 4 * block + released <= |mem0|
    requires forall w :: 0 <= w < |mem0| ==>
      mem1[w] == mem0[if 4 * base <= w < 4 * base + released
                      then CopiedFrom(4 * base, 4 * block, w - 4 * base) else w]
    ensures ReallocSpec(h, h', n, block, size, base, mem0, mem1)
  {
    var i :| FirstMatch(h.table, block, i) && FreeAt(h, freed, i) && released == h.table[i].size;
    assert mem1 == Copied(mem0, base, block, released);
    assert ReallocVia(h, freed, h', n, i, size, base);
  }

  lemma ReallocFailed(h: Heap, freed: Heap, h': Heap, n: nat, block: nat, size: u64, released: nat,
                      mem: seq<u64>, low: seq<u64>, low': seq<u64>)
    requires FreeStep(h, freed, block, released) && MallocStep(freed, h', n, ReallocCount(released, size), -1)
    requires 4 * block + released <= |mem| && released <= |low|
    requires low' == mem[4 * block..4 * block + released] + low[released..]
    ensures ReallocFails(h, h', n, block, size, mem, low, low')
  {
    var i :| FirstMatch(h.table, block, i) && FreeAt(h, freed, i) && released == h.table[i].size;
    assert h' == freed;
  }

  /** The block count `krealloc` asks for: the old size in blocks added to the new one in bytes. */
  function ReallocCount(blocks: nat, size: u64): nat {
    RoundUp(U64(blocks + size), BLOCKSIZE)
  }

  /** The units of the two operands are mixed as in the code: old blocks are added to new bytes. */
  lemma ReallocCountCovers(blocks: nat, size: u64)
    requires blocks + size + 31 < TWO_TO_64
    ensures blocks + size <= 32 * ReallocCount(blocks, size) < blocks + size + 32
  {
    RoundUpCoversIff(blocks + size, 32);
  }

  ghost predicate ReallocVia(h: Heap, freed: Heap, h': Heap, n: nat, i: nat, size: u64, base: int) {
    && FreeAt(h, freed, i) && base >= 0
    && MallocStep(freed, h', n, ReallocCount(h.table[i].size, size), base)
  }

  /** `krealloc` as a whole: free the first match, allocate, copy one word per block released. */
  ghost predicate ReallocSpec(h: Heap, h': Heap, n: nat, block: nat, size: u64, base: nat,
                              mem: seq<u64>, mem': seq<u64>) {
    exists freed: Heap, i: nat :: FirstMatch(h.table, block, i) && ReallocVia(h, freed, h', n, i, size, base)
      && 4 * base + h.table[i].size <= |mem| && 4 * block + h.table[i].size <= |mem|
      && mem' == Copied(mem, base, block, h.table[i].size)
  }

  /** `krealloc` without room: the first match is released, nothing is allocated, and its words overwrite the lowest
      ones in memory. */
  ghost predicate ReallocFails(h: Heap, h': Heap, n: nat, block: nat, size: u64,
                               mem: seq<u64>, low: seq<u64>, low': seq<u64>) {
    exists i: nat :: FirstMatch(h.table, block, i) && FreeAt(h, h', i)
      && MallocStep(h', h', n, ReallocCount(h.table[i].size, size), -1)
      && 4 * block + h.table[i].size <= |mem| && h.table[i].size <= |low|
      && low' == mem[4 * block..4 * block + h.table[i].size] + low[h.table[i].size..]
  }

  /** The main property of `krealloc`: for a live block whose release is exact, the first words of the new place, one
      for each old block, are the old ones. */
  lemma ReallocKeepsContents(h: Heap, h': Heap, n: nat, k: nat, size: u64, base: nat, mem: seq<u64>, mem': seq<u64>)
    requires HeapInv(h, n) && k < |h.table| && !Dead(h.table[k]) && |mem| == 4 * n
    requires h.table[k].block != 0 || forall j | 0 <= j < k :: !Dead(h.table[j])
    requires ReallocSpec(h, h', n, h.table[k].block, size, base, mem, mem')
    ensures HeapInv(h', n) && |mem'| == |mem|
    ensures forall w | 0 <= w < h.table[k].size :: WordMoved(mem, mem', base, h.table[k].block, w)
    ensures h.table[k].size <= 4 * ReallocCount(h.table[k].size, size) ==>
              forall j: nat, w: nat | j < |h.table| && j != k && w < |mem| && Owns(h.table[j], w / 4) ::
                mem'[w] == mem[w]
  {
    OthersSurviveIff(h, h', n, k, size, base, mem, mem');
    var e, count := h.table[k], ReallocCount(h.table[k].size, size);
    var freed := ReallocPlace(h, h', n, k, size, base, mem, mem');
    ReallocResult(h, h', n, k, size, base, mem, mem');
    FreeKeepsInv(h, freed, n, k);
    MallocKeepsInv(freed, h', n, count, base);
    forall w | 0 <= w < e.size ensures WordMoved(mem, mem', base, e.block, w) {
      ReallocCopiesOldWords(h, freed, h', n, k, count, base, mem, w);
    }
  }

  /** Whatever the memory holds, no word of another live allocation changes. */
  ghost predicate SparesOthers(h: Heap, h': Heap, n: nat, k: nat, size: u64, base: nat)
    requires k < |h.table|
  {
    forall mem: seq<u64>, mem': seq<u64>, j: nat, w: nat |
      |mem| == 4 * n && ReallocSpec(h, h', n, h.table[k].block, size, base, mem, mem')
      && j < |h.table| && j != k && Owns(h.table[j], w / 4) && w < |mem| ::
      w < |mem'| && mem'[w] == mem[w]
  }

  /** The first fit of `count` blocks is the old place, or is followed by free blocks as far as the copy of `size` words
      reaches past it. */
  ghost predicate CopyHasRoom(bits: seq<bool>, n: nat, was: nat, size: nat, count: nat) {
    exists base: nat :: IsFirstFit(bits, n, count, base)
                        && (base == was || ClearBetween(bits, n, base + count, 4 * base + size))
  }

  /** Every block from `from` on that begins before word `end` is free. */
  ghost predicate ClearBetween(bits: seq<bool>, n: nat, from: nat, end: nat) {
    n <= |bits| && forall c | from <= c < n && 4 * c < end :: !bits[c]
  }

  /** A reallocation of a live block with exact release leaves every other live allocation alone, whatever the memory
      holds, if and only if, in the bitmap with the block released, the first fit for the new size is the old place or
      is followed by free blocks as far as the copy reaches. A new block that holds the words copied is always so; a
      smaller one need not be. */
  lemma OthersSurviveIff(h: Heap, h': Heap, n: nat, k: nat, size: u64, base: nat, mem0: seq<u64>, mem1: seq<u64>)
    requires HeapInv(h, n) && k < |h.table| && !Dead(h.table[k]) && |mem0| == 4 * n
    requires h.table[k].block != 0 || forall j | 0 <= j < k :: !Dead(h.table[j])
    requires ReallocSpec(h, h', n, h.table[k].block, size, base, mem0, mem1)
    ensures var e, count := h.table[k], ReallocCount(h.table[k].size, size);
            && (SparesOthers(h, h', n, k, size, base)
                <==> CopyHasRoom(Fill(h.bits, e.block, e.size, false), n, e.block, e.size, count))
            && (e.size <= 4 * count ==> SparesOthers(h, h', n, k, size, base))
  {
    var e, count := h.table[k], ReallocCount(h.table[k].size, size);
    var freed := ReallocPlace(h, h', n, k, size, base, mem0, mem1);
    FirstFitOnce(freed.bits, n, e.block, e.size, count, base);
    hide ReallocCount, ReallocSpec, FirstMatch, ReallocVia, IsFirstFit, CopyHasRoom;
    if base == e.block || ClearBetween(freed.bits, n, base + count, 4 * base + e.size) {
      forall mem: seq<u64>, mem': seq<u64>, j: nat, w: nat |
        |mem| == 4 * n && ReallocSpec(h, h', n, e.block, size, base, mem, mem')
        && j < |h.table| && j != k && Owns(h.table[j], w / 4) && w < |mem|
        ensures w < |mem'| && mem'[w] == mem[w]
      {
        ReallocResult(h, h', n, k, size, base, mem, mem');
        WordSpared(h, freed.bits, n, k, count, base, mem, j, w);
      }
    } else {
      OverwritesAWord(h, h', n, k, size, base, mem0, mem1);
    }
  }

  lemma FirstFitOnce(bits: seq<bool>, n: nat, was: nat, size: nat, count: nat, base: nat)
    requires IsFirstFit(bits, n, count, base)
    ensures CopyHasRoom(bits, n, was, size, count)
            <==> base == was || ClearBetween(bits, n, base + count, 4 * base + size)
    ensures size <= 4 * count ==> ClearBetween(bits, n, base + count, 4 * base + size)
  {
    hide ClearBetween;
    if other: nat :| IsFirstFit(bits, n, count, other)
                     && (other == was || ClearBetween(bits, n, other + count, 4 * other + size)) {
      assert other == base;
    }
    NothingBetween(bits, n, size, count, base);
  }

  lemma NothingBetween(bits: seq<bool>, n: nat, size: nat, count: nat, base: nat)
    requires n <= |bits|
    ensures size <= 4 * count ==> ClearBetween(bits, n, base + count, 4 * base + size)
  {
  }

  lemma WordSpared(h: Heap, bits: seq<bool>, n: nat, k: nat, count: nat, base: nat, mem: seq<u64>, j: nat, w: nat)
    requires HeapInv(h, n) && k < |h.table| && bits == Fill(h.bits, h.table[k].block, h.table[k].size, false)
    requires FreeRun(bits, n, base, count) && |mem| == 4 * n
    requires base == h.table[k].block || ClearBetween(bits, n, base + count, 4 * base + h.table[k].size)
    requires 4 * base + h.table[k].size <= |mem| && 4 * h.table[k].block + h.table[k].size <= |mem|
    requires j < |h.table| && j != k && Owns(h.table[j], w / 4) && w < |mem|
    ensures Copied(mem, base, h.table[k].block, h.table[k].size)[w] == mem[w]
  {
    var e, b := h.table[k], w / 4;
    assert h.bits[b] by { assert OwnedBySome(h.table, b); }
    assert !Owns(e, b);
    assert bits[b];
    if base == e.block {
      assert w >= 4 * base ==> CopiedFrom(4 * base, 4 * base, w - 4 * base) == w;
    } else {
      assert !(base <= b < base + count);
      assert b >= base + count ==> 4 * b >= 4 * base + e.size;
    }
  }

  lemma OverwritesAWord(h: Heap, h': Heap, n: nat, k: nat, size: u64, base: nat, mem0: seq<u64>, mem1: seq<u64>)
    requires HeapInv(h, n) && k < |h.table| && !Dead(h.table[k]) && |mem0| == 4 * n
    requires h.table[k].block != 0 || forall j | 0 <= j < k :: !Dead(h.table[j])
    requires ReallocSpec(h, h', n, h.table[k].block, size, base, mem0, mem1) && base != h.table[k].block
    requires !ClearBetween(Fill(h.bits, h.table[k].block, h.table[k].size, false), n,
                           base + ReallocCount(h.table[k].size, size), 4 * base + h.table[k].size)
    ensures !SparesOthers(h, h', n, k, size, base)
  {
    var e, count := h.table[k], ReallocCount(h.table[k].size, size);
    var freed := ReallocPlace(h, h', n, k, size, base, mem0, mem1);
    CopyInBounds(freed.bits, n, e.block, e.size, count, base);
    hide ReallocCount, FirstMatch, ReallocVia, IsFirstFit, FreeRun, ReallocSpec, SparesOthers;
    var c :| base + count <= c < n && 4 * c < 4 * base + e.size && freed.bits[c];
    var j := OwnerOf(h, n, k, c);
    hide HeapInv;
    OverwritesWordOf(h, h', n, k, size, base, mem0, mem1, c, j);
  }

  lemma OverwritesWordOf(h: Heap, h': Heap, n: nat, k: nat, size: u64, base: nat, mem0: seq<u64>, mem1: seq<u64>,
                         c: nat, j: nat)
    requires HeapInv(h, n) && k < |h.table| && !Dead(h.table[k]) && |mem0| == 4 * n
    requires h.table[k].block != 0 || forall j | 0 <= j < k :: !Dead(h.table[j])
    requires ReallocSpec(h, h', n, h.table[k].block, size, base, mem0, mem1)
    requires base < h.table[k].block && 4 * h.table[k].block + h.table[k].size <= 4 * n
    requires base <= c < n && 4 * c < 4 * base + h.table[k].size
    requires j < |h.table| && j != k && Owns(h.table[j], c)
    ensures !SparesOthers(h, h', n, k, size, base)
  {
    hide HeapInv, ReallocSpec, SparesOthers, Copied;
    var e := h.table[k];
    var from := 4 * e.block + (4 * c - 4 * base);
    var mem: seq<u64> := seq(4 * n, i requires 0 <= i < 4 * n => if i == from then 1 else 0);
    ReallocAny(h, h', n, k, size, base, mem0, mem1, mem);
    CopyMovesOver(mem, base, e.block, e.size, 4 * c);
    assert mem[4 * c] == 0 && 4 * c / 4 == c;
    NotSpared(h, h', n, k, size, base, mem, Copied(mem, base, e.block, e.size), j, 4 * c);
  }

  /** A block that is set once entry k is released belongs to another entry. */
  lemma OwnerOf(h: Heap, n: nat, k: nat, c: nat) returns (j: nat)
    requires HeapInv(h, n) && k < |h.table| && c < n && n <= |h.bits|
    requires h.table[k].block + h.table[k].size <= |h.bits|
    requires Fill(h.bits, h.table[k].block, h.table[k].size, false)[c]
    ensures j < |h.table| && j != k && Owns(h.table[j], c)
  {
    j :| 0 <= j < |h.table| && Owns(h.table[j], c);
  }

  lemma CopyMovesOver(mem: seq<u64>, base: nat, was: nat, words: nat, w: nat)
    requires 4 * base + words <= |mem| && 4 * was + words <= |mem| && base < was && 4 * base <= w < 4 * base + words
    ensures Copied(mem, base, was, words)[w] == mem[4 * was + (w - 4 * base)]
  {
    assert CopiedFrom(4 * base, 4 * was, w - 4 * base) == 4 * was + (w - 4 * base);
  }

  lemma NotSpared(h: Heap, h': Heap, n: nat, k: nat, size: u64, base: nat, mem: seq<u64>, mem': seq<u64>,
                  j: nat, w: nat)
    requires k < |h.table| && |mem| == 4 * n && ReallocSpec(h, h', n, h.table[k].block, size, base, mem, mem')
    requires j < |h.table| && j != k && Owns(h.table[j], w / 4) && w < |mem| == |mem'| && mem'[w] != mem[w]
    ensures !SparesOthers(h, h', n, k, size, base)
  {
  }

  /** Whatever the memory holds, every word that fits in both blocks is found again after the call. */
  ghost predicate KeepsAllWords(h: Heap, h': Heap, n: nat, k: nat, size: u64, base: nat)
    requires k < |h.table|
  {
    forall mem: seq<u64>, mem': seq<u64>, w: nat |
      |mem| == 4 * n && ReallocSpec(h, h', n, h.table[k].block, size, base, mem, mem')
      && w < 4 * h.table[k].size && w < 4 * ReallocCount(h.table[k].size, size) ::
      WordMoved(mem, mem', base, h.table[k].block, w)
  }

  /** `krealloc` copies one word per old block, a quarter of its bytes. For a live block whose release is exact, all the
      words that fit survive, whatever the memory holds, if and only if the new block holds no more than is copied or
      the old place is the first fit for it once it is released. */
  lemma AllWordsSurviveIff(h: Heap, h': Heap, n: nat, k: nat, size: u64, base: nat, mem0: seq<u64>, mem1: seq<u64>)
    requires HeapInv(h, n) && k < |h.table| && !Dead(h.table[k]) && |mem0| == 4 * n
    requires h.table[k].block != 0 || forall j | 0 <= j < k :: !Dead(h.table[j])
    requires ReallocSpec(h, h', n, h.table[k].block, size, base, mem0, mem1)
    ensures var e, count := h.table[k], ReallocCount(h.table[k].size, size);
            KeepsAllWords(h, h', n, k, size, base)
            <==> 4 * count <= e.size || IsFirstFit(Fill(h.bits, e.block, e.size, false), n, count, e.block)
  {
    var e, count := h.table[k], ReallocCount(h.table[k].size, size);
    var freed := ReallocPlace(h, h', n, k, size, base, mem0, mem1);
    FirstFitNeverStraddles(freed.bits, n, e.block, e.size, count, base);
    hide ReallocCount, HeapInv, ReallocSpec, FirstMatch, ReallocVia, FreeRun, IsFirstFit;
    if 4 * count <= e.size || base == e.block {
      forall mem: seq<u64>, mem': seq<u64>, w: nat |
        |mem| == 4 * n && ReallocSpec(h, h', n, e.block, size, base, mem, mem') && w < 4 * e.size && w < 4 * count
        ensures WordMoved(mem, mem', base, e.block, w)
      {
        ReallocResult(h, h', n, k, size, base, mem, mem');
        CopyKeepsWord(mem, base, e.block, e.size, w);
      }
    } else {
      LosesAWord(h, h', n, k, size, base, mem0, mem1);
    }
  }

  lemma LosesAWord(h: Heap, h': Heap, n: nat, k: nat, size: u64, base: nat, mem0: seq<u64>, mem1: seq<u64>)
    requires HeapInv(h, n) && k < |h.table| && !Dead(h.table[k]) && |mem0| == 4 * n
    requires h.table[k].block != 0 || forall j | 0 <= j < k :: !Dead(h.table[j])
    requires ReallocSpec(h, h', n, h.table[k].block, size, base, mem0, mem1)
    requires h.table[k].size < 4 * ReallocCount(h.table[k].size, size) && base != h.table[k].block
    ensures !KeepsAllWords(h, h', n, k, size, base)
  {
    var e, count := h.table[k], ReallocCount(h.table[k].size, size);
    var freed := ReallocPlace(h, h', n, k, size, base, mem0, mem1);
    assert base + count <= n;
    hide ReallocCount, HeapInv, FirstMatch, ReallocVia, IsFirstFit, ReallocSpec, Copied, KeepsAllWords;
    ReallocResult(h, h', n, k, size, base, mem0, mem1);
    var mem: seq<u64> := seq(4 * n, i requires 0 <= i < 4 * n => if i == 4 * e.block + e.size then 1 else 0);
    ReallocAny(h, h', n, k, size, base, mem0, mem1, mem);
    CopyLeavesBehind(mem, base, e.block, e.size);
    NotAllKept(h, h', n, k, size, base, mem, Copied(mem, base, e.block, e.size), e.size);
  }

  lemma CopyLeavesBehind(mem: seq<u64>, base: nat, was: nat, words: nat)
    requires 4 * base + words < |mem| && 4 * was + words < |mem| && base != was
    requires forall i | 0 <= i < |mem| :: mem[i] == if i == 4 * was + words then 1 else 0
    ensures !WordMoved(mem, Copied(mem, base, was, words), base, was, words)
  {
    hide CopiedFrom;
    assert Copied(mem, base, was, words)[4 * base + words] == mem[4 * base + words] == 0;
  }

  lemma NotAllKept(h: Heap, h': Heap, n: nat, k: nat, size: u64, base: nat, mem: seq<u64>, mem': seq<u64>, w: nat)
    requires k < |h.table| && |mem| == 4 * n && ReallocSpec(h, h', n, h.table[k].block, size, base, mem, mem')
    requires w < 4 * h.table[k].size && w < 4 * ReallocCount(h.table[k].size, size)
    requires !WordMoved(mem, mem', base, h.table[k].block, w)
    ensures !KeepsAllWords(h, h', n, k, size, base)
  {
  }

  lemma CopyKeepsWord(mem: seq<u64>, base: nat, was: nat, words: nat, w: nat)
    requires 4 * base + words <= |mem| && 4 * was + words <= |mem| && 4 * base + w < |mem| && 4 * was + w < |mem|
    requires base == was || (w < words && !(4 * was < 4 * base < 4 * was + words))
    ensures WordMoved(mem, Copied(mem, base, was, words), base, was, w)
  {
    CopyExact(4 * base, 4 * was, words);
  }

  /** What every reallocation of live entry k does: release that entry, then take the first fit. */
  lemma ReallocPlace(h: Heap, h': Heap, n: nat, k: nat, size: u64, base: nat, mem: seq<u64>, mem': seq<u64>)
    returns (freed: Heap)
    requires HeapInv(h, n) && k < |h.table| && !Dead(h.table[k])
    requires h.table[k].block != 0 || forall j | 0 <= j < k :: !Dead(h.table[j])
    requires ReallocSpec(h, h', n, h.table[k].block, size, base, mem, mem')
    ensures var e, count := h.table[k], ReallocCount(h.table[k].size, size);
            && FirstMatch(h.table, e.block, k) && ReallocVia(h, freed, h', n, k, size, base)
            && freed.bits == Fill(h.bits, e.block, e.size, false) && FreeRun(freed.bits, n, e.block, e.size)
            && count > 0 && IsFirstFit(freed.bits, n, count, base)
            && (base == e.block <==> IsFirstFit(freed.bits, n, count, e.block))
  {
    var e := h.table[k];
    var was: Heap, i: nat :| FirstMatch(h.table, e.block, i) && ReallocVia(h, was, h', n, i, size, base)
      && 4 * base + h.table[i].size <= |mem| && 4 * e.block + h.table[i].size <= |mem|
      && mem' == Copied(mem, base, e.block, h.table[i].size);
    freed := was;
    assert FreeStep(h, freed, e.block, h.table[i].size);
    MatchIsLive(h, n, k, i);
  }

  lemma MatchIsLive(h: Heap, n: nat, k: nat, i: nat)
    requires HeapInv(h, n) && k < |h.table| && !Dead(h.table[k]) && FirstMatch(h.table, h.table[k].block, i)
    requires h.table[k].block != 0 || forall j | 0 <= j < k :: !Dead(h.table[j])
    ensures i == k
  {
    assert Owns(h.table[k], h.table[k].block);
    assert !Dead(h.table[i]) ==> Owns(h.table[i], h.table[k].block);
  }

  lemma ReallocResult(h: Heap, h': Heap, n: nat, k: nat, size: u64, base: nat, mem: seq<u64>, mem': seq<u64>)
    requires HeapInv(h, n) && k < |h.table| && !Dead(h.table[k])
    requires h.table[k].block != 0 || forall j | 0 <= j < k :: !Dead(h.table[j])
    requires ReallocSpec(h, h', n, h.table[k].block, size, base, mem, mem')
    ensures var e := h.table[k];
            && 4 * base + e.size <= |mem| && 4 * e.block + e.size <= |mem|
            && mem' == Copied(mem, base, e.block, e.size)
  {
    var e := h.table[k];
    var freed: Heap, i: nat :| FirstMatch(h.table, e.block, i) && ReallocVia(h, freed, h', n, i, size, base)
      && 4 * base + h.table[i].size <= |mem| && 4 * e.block + h.table[i].size <= |mem|
      && mem' == Copied(mem, base, e.block, h.table[i].size);
    MatchIsLive(h, n, k, i);
  }

  /** The same reallocation on another memory. */
  lemma ReallocAny(h: Heap, h': Heap, n: nat, k: nat, size: u64, base: nat,
                   mem0: seq<u64>, mem1: seq<u64>, mem: seq<u64>)
    requires HeapInv(h, n) && k < |h.table| && !Dead(h.table[k]) && |mem| == |mem0|
    requires h.table[k].block != 0 || forall j | 0 <= j < k :: !Dead(h.table[j])
    requires ReallocSpec(h, h', n, h.table[k].block, size, base, mem0, mem1)
    ensures var e := h.table[k];
            && 4 * base + e.size <= |mem| && 4 * e.block + e.size <= |mem|
            && ReallocSpec(h, h', n, e.block, size, base, mem, Copied(mem, base, e.block, e.size))
  {
    var freed := ReallocPlace(h, h', n, k, size, base, mem0, mem1);
    ReallocResult(h, h', n, k, size, base, mem0, mem1);
  }
}
