/** The kernel heap as kernel/mm/kHeap.c writes it: bitmap, side table and memory updated in place. */
module KernelHeap {
  import opened Words
  import opened MemUtils
  import opened FirstFit
  import opened HeapModel

  class KernelHeap {
    const kHeapBegin: u64
    const kbitmap: array<bv8>
    const kbitmapSize: nat
    const allocationBitmap: array<Extent>
    /** The words of the heap region, four to a block. */
    const mem: array<u64>
    /** The words from address 0 on, where a copy to NULL lands. */
    const low: array<u64>

    /** `kHeapInit` for a heap of `blocks` blocks at the physical address `begin`. The bitmap is zeroed whole, but only
        the first `zeroed` entries of the side table that will be scanned: `found` is what its memory held. Bitmap and
        table agree if and only if the entries left as they were happen to be zero as well. */
    constructor (begin: u64, blocks: nat, found: seq<Extent>, zeroed: nat)
      requires zeroed <= |found| && blocks <= |found| && blocks < 0x10000
      requires 0x8_0000 <= begin && begin + BLOCKSIZE * blocks <= 0x1_0000_0000
      ensures fresh(kbitmap) && fresh(allocationBitmap) && fresh(mem) && fresh(low)
      ensures kbitmapSize == blocks && kHeapBegin == begin
      ensures forall i | 0 <= i < |State().bits| :: !State().bits[i]
      ensures |State().table| == |found|
      ensures forall k | 0 <= k < |found| :: State().table[k] == if k < zeroed then Extent(0, 0) else found[k]
      ensures Valid() <==> forall k | zeroed <= k < |found| :: found[k] == Extent(0, 0)
    {
      kHeapBegin := begin;
      kbitmapSize := blocks;
      kbitmap := new bv8[(blocks + 7) / 8](_ => 0);
      allocationBitmap := new Extent[|found|](k requires 0 <= k < |found| =>
        if k < zeroed then Extent(0, 0) else found[k]);
      mem := new u64[WORDS_PER_BLOCK * blocks];
      low := new u64[0x1_0000];
      new;
      forall i | 0 <= i < 8 * kbitmap.Length ensures !Bits(kbitmap[..])[i] {
        assert kbitmap[i / 8] == 0;
        ZeroByte(i % 8);
      }
      FreshHeapAgreesIff(State(), blocks, found, zeroed);
    }

    ghost function State(): Heap
      reads kbitmap, allocationBitmap
    {
      Heap(Bits(kbitmap[..]), allocationBitmap[..])
    }

    /** The bitmap and the table agree; the 16-bit fields of an entry hold every block number and count; the heap
        lies below 4 GiB, so no heap address wraps. */
    ghost predicate Valid()
      reads kbitmap, allocationBitmap
    {
      && kbitmap as object != allocationBitmap && mem as object != kbitmap && mem as object != allocationBitmap
      && low != mem && low as object != kbitmap && low as object != allocationBitmap
      && low.Length >= 0x1_0000 && 0x8_0000 <= kHeapBegin
      && HeapInv(State(), kbitmapSize)
      && kbitmapSize < 0x10000
      && mem.Length == WORDS_PER_BLOCK * kbitmapSize
      && kHeapBegin + BLOCKSIZE * kbitmapSize <= 0x1_0000_0000
    }

    /** The virtual address handed out for a block. */
    function AddressOf(block: nat): u64 {
      U64(block * BLOCKSIZE + kHeapBegin + HIGH_VMA)
    }

    /** The block `kfree` computes from an address, in 64-bit arithmetic. */
    function BlockOf(address: u64): u64 {
      U64(address - HIGH_VMA - kHeapBegin) / BLOCKSIZE
    }

    lemma AddressRoundTrip(block: nat)
      requires Valid() && block < kbitmapSize
      ensures BlockOf(AddressOf(block)) == block && AddressOf(block) != 0
      ensures AddressOf(block) == HIGH_VMA + kHeapBegin + 32 * block
    {
    }

    /** Every byte of a block leads back to the block. */
    lemma ByteToBlock(block: nat, offset: nat)
      requires Valid() && block < kbitmapSize && offset < 32
      ensures HIGH_VMA + kHeapBegin + 32 * block + offset < TWO_TO_64
      ensures BlockOf(HIGH_VMA + kHeapBegin + 32 * block + offset) == block
    {
    }

    method FirstFreeSlot() returns (slot: int)
      requires Valid()
      ensures slot == -1 ==> forall j | 0 <= j < kbitmapSize :: State().bits[j]
      ensures slot != -1 ==> 0 <= slot < kbitmapSize && !State().bits[slot]
                             && forall j | 0 <= j < slot :: State().bits[j]
    {
      for i := 0 to kbitmapSize
        invariant forall j | 0 <= j < i :: State().bits[j]
      {
        if !IsSet(kbitmap[..], i) {
          return i;
        }
      }
      return -1;
    }

    method FirstFreeAllocationSlot() returns (slot: int)
      ensures slot == -1 ==> forall k | 0 <= k < allocationBitmap.Length :: !Dead(allocationBitmap[k])
      ensures slot != -1 ==> FirstDead(allocationBitmap[..], slot)
    {
      for i := 0 to allocationBitmap.Length
        invariant forall k | 0 <= k < i :: !Dead(allocationBitmap[k])
      {
        if allocationBitmap[i].size == 0 {
          return i;
        }
      }
      return -1;
    }

    /** A `kmalloc` answer: the address of the block found, or NULL. */
    ghost predicate Answer(base: int, address: u64)
      requires base >= -1
    {
      address == if base == -1 then 0 else AddressOf(base)
    }

    ghost predicate MallocSpec(h: Heap, h': Heap, size: u64, address: u64) {
      exists base :: base >= -1 && MallocStep(h, h', kbitmapSize, RoundUp(size, BLOCKSIZE), base)
                     && Answer(base, address)
    }

    /** Lines 48 to 57 of `kmalloc`: enter the run found in the side table and mark its blocks. */
    method Record(base: nat, blockCount: nat, ghost size: u64) returns (address: u64)
      requires Valid() && blockCount > 0 && blockCount == RoundUp(size, BLOCKSIZE)
      requires base % BLOCKSIZE == 0 && IsFirstFit(State().bits, kbitmapSize, blockCount, base / BLOCKSIZE)
      modifies kbitmap, allocationBitmap
      ensures Valid() && MallocSpec(old(State()), State(), size, address)
      ensures address == HIGH_VMA + kHeapBegin + base
    {
      ghost var h := State();
      DeadEntryExists(h.bits, kbitmapSize, h.table, base / BLOCKSIZE);
      var slot := FirstFreeAllocationSlot();
      allocationBitmap[slot] := Extent((base / 32) % 0x10000, blockCount % 0x10000);
      SetRun(kbitmap, base / BLOCKSIZE, blockCount);
      assert State().table == h.table[slot := Extent(base / BLOCKSIZE, blockCount)];
      assert MallocStep(h, State(), kbitmapSize, blockCount, base / BLOCKSIZE);
      MallocKeepsInv(h, State(), kbitmapSize, blockCount, base / BLOCKSIZE);
      address := U64(base + kHeapBegin + HIGH_VMA);
      assert Answer(base / BLOCKSIZE, address);
    }

    lemma AnswerHoldsBytes(h: Heap, size: u64, address: u64)
      requires Valid() && MallocSpec(h, State(), size, address) && address != 0
      ensures HoldsBytes(State(), kHeapBegin, kbitmapSize, address, size)
    {
      var base :| base >= -1 && MallocStep(h, State(), kbitmapSize, RoundUp(size, BLOCKSIZE), base)
                  && Answer(base, address);
      FitInside(h, State(), RoundUp(size, BLOCKSIZE), base);
      AddressRoundTrip(base);
      hide MallocStep, HeapInv, HoldsBytes, RoundUp, BlockOf;
      MallocHoldsBytes(h, State(), kbitmapSize, kHeapBegin, size, base, address);
    }

    lemma FitInside(h: Heap, h': Heap, count: nat, base: int)
      requires MallocStep(h, h', kbitmapSize, count, base) && base >= 0
      ensures base < kbitmapSize
    {
    }

    lemma NoRunMeansNull(h: Heap, size: u64)
      requires !HasRun(h.bits, kbitmapSize, RoundUp(size, BLOCKSIZE)) || RoundUp(size, BLOCKSIZE) == 0
      ensures MallocSpec(h, h, size, 0)
    {
      assert MallocStep(h, h, kbitmapSize, RoundUp(size, BLOCKSIZE), -1) && Answer(-1, 0);
    }

    lemma HeapCovers()
      requires Valid()
      ensures kbitmapSize <= |State().bits| <= 8 * kbitmap.Length
    {
    }

    /** `kmalloc`. With no free block at all its search would start before the bitmap, so one must be free. */
    method KMalloc(size: u64) returns (address: u64)
      requires Valid()
      requires exists i :: 0 <= i < kbitmapSize && !State().bits[i]
      modifies kbitmap, allocationBitmap
      ensures Valid() && MallocSpec(old(State()), State(), size, address)
      ensures address != 0 ==> HoldsBytes(State(), kHeapBegin, kbitmapSize, address, size)
    {
      hide HeapInv, MallocSpec, IsFirstFit, HasRun, RoundUp, HoldsBytes;
      HeapCovers();
      ghost var bits, n := State().bits, kbitmapSize;
      var cnt := 0;
      var blockCount := RoundUp(size, BLOCKSIZE);
      var first := FirstFreeSlot();
      assert first != -1 by {
        ghost var free :| 0 <= free < kbitmapSize && !State().bits[free];
      }
      var base := first * BLOCKSIZE;
      var i := first;
      SearchFromFirstFree(bits, n, blockCount, first);
      while i < kbitmapSize
        invariant State() == old(State()) && Searching(bits, n, blockCount, i, cnt)
        invariant base == (i - cnt) * BLOCKSIZE
      {
        if IsSet(kbitmap[..], i) {
          SearchBlocked(bits, n, blockCount, i, cnt);
          base := base + (cnt + 1) * BLOCKSIZE;
          cnt := 0;
          i := i + 1;
          continue;
        }
        SearchDone(bits, n, blockCount, i, cnt);
        cnt := cnt + 1;
        if cnt == blockCount {
          address := Record(base, blockCount, size);
          AnswerHoldsBytes(old(State()), size, address);
          return;
        }
        i := i + 1;
      }
      SearchDone(bits, n, blockCount, i, cnt);
      NoRunMeansNull(State(), size);
      return 0;
    }

    /** `kfree` of an address whose block number is in the table. */
    method KFree(address: u64) returns (released: u64)
      requires Valid()
      requires exists i :: 0 <= i < allocationBitmap.Length && allocationBitmap[i].block == BlockOf(address)
      modifies kbitmap, allocationBitmap
      ensures Valid()
      ensures FreeStep(old(State()), State(), BlockOf(address), released)
    {
      ghost var h := State();
      var bitmapBase := U64(address - HIGH_VMA - kHeapBegin) / 32;
      var i := 0;
      while i < allocationBitmap.Length && allocationBitmap[i].block != bitmapBase
        invariant i <= allocationBitmap.Length
        invariant forall k | 0 <= k < i :: allocationBitmap[k].block != bitmapBase
      {
        i := i + 1;
      }
      released := allocationBitmap[i].size;
      ClearRun(kbitmap, bitmapBase, released);
      allocationBitmap[i] := Extent(0, 0);
      assert FirstMatch(h.table, bitmapBase, i) && FreeAt(h, State(), i);
      FreeKeepsInv(h, State(), kbitmapSize, i);
    }

    /** The word of the heap region at an address. */
    function WordOf(address: u64): nat {
      U64(address - HIGH_VMA - kHeapBegin) / 8
    }

    lemma WordOfBlock(block: nat)
      requires Valid() && block < kbitmapSize
      ensures WordOf(AddressOf(block)) == 4 * block
    {
    }

    /** A `krealloc` answer: some block, reached as `ReallocSpec` says. */
    ghost predicate ReallocAnswer(h: Heap, h': Heap, block: nat, size: u64, address: u64,
                                  mem0: seq<u64>, mem1: seq<u64>) {
      exists base: nat ::
        ReallocSpec(h, h', kbitmapSize, block, size, base, mem0, mem1) && Answer(base, address)
    }

    /** `krealloc` of a block address in the table, on a heap that is not still full once the block is released. Without
        room for the new block the answer is NULL, the block is gone and its words are copied to address 0. */
    method KRealloc(address: u64, size: u64) returns (newAddress: u64)
      requires Valid() && BlockOf(address) < kbitmapSize && address == AddressOf(BlockOf(address))
      requires exists i :: FirstMatch(State().table, BlockOf(address), i)
                           && (!Dead(State().table[i]) || exists f :: 0 <= f < kbitmapSize && !State().bits[f])
      modifies kbitmap, allocationBitmap, mem, low
      ensures Valid()
      ensures newAddress != 0 <==> ReallocHasRoom(old(State()), kbitmapSize, BlockOf(address), size)
      ensures newAddress != 0 ==>
        && ReallocAnswer(old(State()), State(), BlockOf(address), size, newAddress, old(mem[..]), mem[..])
        && low[..] == old(low[..])
        && exists i :: FirstMatch(old(State()).table, BlockOf(address), i)
                       && HoldsBytes(State(), kHeapBegin, kbitmapSize, newAddress,
                                     U64(old(State()).table[i].size + size))
      ensures newAddress == 0 ==>
        && mem[..] == old(mem[..])
        && ReallocFails(old(State()), State(), kbitmapSize, BlockOf(address), size, mem[..], old(low[..]), low[..])
    {
      hide HeapInv, FirstMatch, FreeStep, MallocStep, MallocSpec, ReallocSpec, Answer, ReallocCount, ReallocHasRoom;
      hide BlockOf, AddressOf, WordOf, HasRun, Bits, RoundUp, U64, CopiedFrom, ReallocFails, FreeRun, Dead, Valid;
      hide HoldsBytes;
      ghost var h, block := State(), BlockOf(address);
      Shape();
      MatchIsFound(block);
      var sizeOfAllocation := KFree(address);
      ghost var freed := State();
      FreeAfterRelease(h, freed, kbitmapSize, block, sizeOfAllocation);
      newAddress := KMalloc(U64(sizeOfAllocation + size));
      ghost var base := NewBlock(h, freed, State(), block, sizeOfAllocation, size, newAddress);
      WordOfBlock(block);
      ReleasedIsMatch(h, freed, block, sizeOfAllocation);
      CopyWords(newAddress, address, sizeOfAllocation, base, block);
      if newAddress == 0 {
        ReallocFailed(h, freed, State(), kbitmapSize, block, size, sizeOfAllocation, mem[..], old(low[..]), low[..]);
      } else {
        ReallocDone(h, freed, State(), kbitmapSize, block, size, sizeOfAllocation, base, old(mem[..]), mem[..]);
      }
    }

    /** The `memcpy64` of line 88, into the heap or, for NULL, to address 0. */
    method CopyWords(newAddress: u64, address: u64, count: nat, ghost base: int, ghost block: nat)
      requires low != mem && count <= low.Length && WordOf(address) == 4 * block && 4 * block + count <= mem.Length
      requires newAddress != 0 ==> WordOf(newAddress) == 4 * base && 4 * base + count <= mem.Length
      modifies mem, low
      ensures newAddress == 0 ==>
        mem[..] == old(mem[..]) && low[..] == mem[4 * block..4 * block + count] + old(low[count..])
      ensures newAddress != 0 ==>
        && low[..] == old(low[..])
        && forall w :: 0 <= w < mem.Length ==>
             mem[w] == old(mem[..])[if 4 * base <= w < 4 * base + count
                                    then CopiedFrom(4 * base, 4 * block, w - 4 * base) else w]
    {
      hide WordOf, CopiedFrom;
      if newAddress == 0 {
        MemCpy64Across(low, 0, mem, WordOf(address), count);
      } else {
        MemCpy64(mem, WordOf(newAddress), WordOf(address), count);
      }
    }

    lemma ReleasedIsMatch(h: Heap, freed: Heap, block: nat, released: nat)
      requires FreeStep(h, freed, block, released)
      ensures exists i :: FirstMatch(h.table, block, i) && h.table[i].size == released
    {
    }

    lemma Shape()
      requires Valid()
      ensures low != mem && low as object != kbitmap && low as object != allocationBitmap
      ensures mem as object != kbitmap && mem as object != allocationBitmap
      ensures HeapInv(State(), kbitmapSize) && kbitmapSize < 0x1_0000 <= low.Length
      ensures mem.Length == WORDS_PER_BLOCK * kbitmapSize
    {
    }

    lemma MatchIsFound(block: nat)
      requires Valid() && exists i :: FirstMatch(State().table, block, i)
      ensures exists i :: 0 <= i < allocationBitmap.Length && allocationBitmap[i].block == block
    {
      var i :| FirstMatch(State().table, block, i);
      assert allocationBitmap[i].block == block;
    }

    lemma NewBlock(h: Heap, freed: Heap, h': Heap, block: nat, released: nat, size: u64, address: u64)
      returns (base: int)
      requires Valid() && FreeStep(h, freed, block, released) && MallocSpec(freed, h', U64(released + size), address)
      requires FreeRun(freed.bits, kbitmapSize, block, released)
      ensures base >= -1 && MallocStep(freed, h', kbitmapSize, ReallocCount(released, size), base)
      ensures Answer(base, address) && (base == -1 <==> address == 0)
      ensures address != 0 <==> ReallocHasRoom(h, kbitmapSize, block, size)
      ensures base != -1 ==> WordOf(address) == 4 * base && 4 * base + released <= 4 * kbitmapSize
    {
      base := BlockAnswered(freed, h', released, size, address);
      RoomIff(h, freed, kbitmapSize, block, released, size);
      hide ReallocCount, ReallocHasRoom, FreeStep, HeapInv, HasRun, FreeRun, MallocSpec, RoundUp, U64;
      if base != -1 {
        CopyInBounds(freed.bits, kbitmapSize, block, released, ReallocCount(released, size), base);
        WordOfBlock(base);
        AddressRoundTrip(base);
      }
    }

    lemma BlockAnswered(freed: Heap, h': Heap, released: nat, size: u64, address: u64) returns (base: int)
      requires MallocSpec(freed, h', U64(released + size), address)
      ensures base >= -1 && MallocStep(freed, h', kbitmapSize, ReallocCount(released, size), base)
      ensures Answer(base, address)
    {
      hide MallocStep, Answer;
      base :| base >= -1 && MallocStep(freed, h', kbitmapSize, RoundUp(U64(released + size), BLOCKSIZE), base)
              && Answer(base, address);
    }
  }

  lemma ZeroByte(k: nat)
    requires k < 8
    ensures !ByteBit(0, k)
  {
  }
}
