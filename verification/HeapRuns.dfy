/** Runs of the kernel heap, from an empty one, that end where it does not do what its callers expect. */
module HeapRuns {
  import opened Words
  import opened MemUtils
  import opened FirstFit
  import opened HeapModel

  /** A heap of four blocks and four entries, by its first four bits; the bitmap's byte holds eight. */
  function SmallHeap(b0: bool, b1: bool, b2: bool, b3: bool, e0: Extent, e1: Extent, e2: Extent): (h: Heap)
    ensures h.bits == [b0, b1, b2, b3, false, false, false, false] && h.table == [e0, e1, e2, Extent(0, 0)]
  {
    Heap([b0, b1, b2, b3, false, false, false, false], [e0, e1, e2, Extent(0, 0)])
  }

  /** From the empty heap: one block, one block, free block 0, two blocks, one block, free block 2. */
  function RunToBlockZeroBehindDead(): (run: seq<Heap>)
    ensures |run| == 7
  {
    var none := Extent(0, 0);
    [SmallHeap(false, false, false, false, none, none, none),
     SmallHeap(true, false, false, false, Extent(0, 1), none, none),
     SmallHeap(true, true, false, false, Extent(0, 1), Extent(1, 1), none),
     SmallHeap(false, true, false, false, none, Extent(1, 1), none),
     SmallHeap(false, true, true, true, Extent(2, 2), Extent(1, 1), none),
     SmallHeap(true, true, true, true, Extent(2, 2), Extent(1, 1), Extent(0, 1)),
     SmallHeap(true, true, false, false, none, Extent(1, 1), Extent(0, 1))]
  }

  lemma MallocOf(h: Heap, h': Heap, n: nat, count: nat, base: nat, slot: nat, taken: nat)
    requires FreeRun(h.bits, n, base, count) && count > 0 && FirstDead(h.table, slot)
    requires base > 0 ==> base - 1 <= taken < count && taken < |h.bits| && h.bits[taken]
    requires h'.bits == Fill(h.bits, base, count, true) && h'.table == h.table[slot := Extent(base, count)]
    ensures MallocStep(h, h', n, count, base) && HeapStep(h, h', n)
  {
    assert MallocStep(h, h', n, count, base);
  }

  lemma FreeOf(h: Heap, h': Heap, n: nat, block: nat, i: nat)
    requires FirstMatch(h.table, block, i) && FreeAt(h, h', i)
    ensures HeapStep(h, h', n)
  {
    assert FreeStep(h, h', block, h.table[i].size);
  }

  lemma FirstCalls()
    ensures var run := RunToBlockZeroBehindDead();
            HeapStep(run[0], run[1], 4) && HeapStep(run[1], run[2], 4)
  {
    var run := RunToBlockZeroBehindDead();
    MallocOf(run[0], run[1], 4, 1, 0, 0, 0);
    MallocOf(run[1], run[2], 4, 1, 1, 1, 0);
  }

  lemma ThirdCall()
    ensures var run := RunToBlockZeroBehindDead(); HeapStep(run[2], run[3], 4)
  {
    var run := RunToBlockZeroBehindDead();
    FreeOf(run[2], run[3], 4, 0, 0);
  }

  lemma FourthCall()
    ensures var run := RunToBlockZeroBehindDead(); HeapStep(run[3], run[4], 4)
  {
    var run := RunToBlockZeroBehindDead();
    MallocOf(run[3], run[4], 4, 2, 2, 0, 1);
  }

  lemma LastCalls()
    ensures var run := RunToBlockZeroBehindDead();
            HeapStep(run[4], run[5], 4) && HeapStep(run[5], run[6], 4)
  {
    var run := RunToBlockZeroBehindDead();
    MallocOf(run[4], run[5], 4, 1, 0, 2, 0);
    FreeOf(run[5], run[6], 4, 2, 0);
  }

  lemma RunStartsEmpty()
    ensures var h := RunToBlockZeroBehindDead()[0];
            HeapInv(h, 4) && forall i | 0 <= i < |h.bits| :: !h.bits[i]
  {
    var h := RunToBlockZeroBehindDead()[0];
    assert forall i | 0 <= i < 8 :: !h.bits[i];
    hide HeapInv;
    EmptyHeapAgreesIff(h, 4);
  }

  /** Freeing live block 0 can do nothing: six calls from the empty heap lead to a heap in which the third entry owns
      block 0 behind a dead one, and there a free of block 0 changes nothing and answers 0. */
  lemma FreeOfBlockZeroCanDoNothing()
    ensures var run := RunToBlockZeroBehindDead();
            && HeapInv(run[0], 4) && (forall i | 0 <= i < 4 :: !run[0].bits[i])
            && (forall k | 0 <= k < 6 :: HeapStep(run[k], run[k + 1], 4))
            && run[6].table[2] == Extent(0, 1) && FreeStep(run[6], run[6], 0, 0)
  {
    var run := RunToBlockZeroBehindDead();
    RunStartsEmpty();
    hide HeapInv;
    assert FirstMatch(run[6].table, 0, 0) && FreeAt(run[6], run[6], 0);
    FirstCalls();
    ThirdCall();
    FourthCall();
    LastCalls();
    hide HeapStep, HeapInv, RunToBlockZeroBehindDead, FreeStep;
  }

  /** A reallocation that loses a word: after two one-block allocations, growing the first to 32 bytes more moves it
      from block 0 to block 2 and leaves its second word behind. */
  lemma ReallocLosesWords()
    ensures var run := RunToBlockZeroBehindDead();
            var mem: seq<u64> := seq(16, i => if i == 1 then 1 else 0);
            && HeapInv(run[0], 4) && HeapStep(run[0], run[1], 4) && HeapStep(run[1], run[2], 4)
            && ReallocSpec(run[2], run[4], 4, 0, 32, 2, mem, Copied(mem, 2, 0, 1))
            && !WordMoved(mem, Copied(mem, 2, 0, 1), 2, 0, 1)
  {
    FreeOfBlockZeroCanDoNothing();
    FirstCalls();
    hide HeapInv, HeapStep;
    var run := RunToBlockZeroBehindDead();
    var mem: seq<u64> := seq(16, i => if i == 1 then 1 else 0);
    assert Copied(mem, 2, 0, 1)[9] == 0;
    GrownCount();
    hide ReallocCount;
    assert FirstMatch(run[2].table, 0, 0) && FreeAt(run[2], run[3], 0);
    assert FirstDead(run[3].table, 0) && FreeRun(run[3].bits, 4, 2, 2);
    assert run[3].bits[1];
    assert MallocStep(run[3], run[4], 4, 2, 2);
    assert ReallocVia(run[2], run[3], run[4], 4, 0, 32, 2);
  }

  /** Eight blocks and entries: one block, one block, five blocks, free block 0. */
  function RunToShrink(): (run: seq<Heap>)
    ensures |run| == 5
  {
    var none := Extent(0, 0);
    [EightBlocks([false, false, false, false, false, false, false], none, none, none),
     EightBlocks([true, false, false, false, false, false, false], Extent(0, 1), none, none),
     EightBlocks([true, true, false, false, false, false, false], Extent(0, 1), Extent(1, 1), none),
     EightBlocks([true, true, true, true, true, true, true], Extent(0, 1), Extent(1, 1), Extent(2, 5)),
     EightBlocks([false, true, true, true, true, true, true], none, Extent(1, 1), Extent(2, 5))]
  }

  function EightBlocks(first: seq<bool>, e0: Extent, e1: Extent, e2: Extent): Heap
    requires |first| == 7
  {
    var none := Extent(0, 0);
    Heap(first + [false], [e0, e1, e2, none, none, none, none, none])
  }

  lemma ShrinkCalls()
    ensures var run := RunToShrink();
            HeapStep(run[0], run[1], 8) && HeapStep(run[1], run[2], 8)
  {
    var run := RunToShrink();
    MallocOf(run[0], run[1], 8, 1, 0, 0, 0);
    MallocOf(run[1], run[2], 8, 1, 1, 1, 0);
  }

  lemma ShrinkCallsOn()
    ensures var run := RunToShrink();
            HeapStep(run[2], run[3], 8) && HeapStep(run[3], run[4], 8)
  {
    var run := RunToShrink();
    MallocOf(run[2], run[3], 8, 5, 2, 2, 1);
    FreeOf(run[3], run[4], 8, 0, 0);
  }

  /** A reallocation that overwrites a neighbour: four calls from the empty heap, then five blocks shrunk to one. The
      block moves to block 0, and the five words copied run on into live block 1. */
  lemma ReallocOverwritesNeighbour()
    ensures var run := RunToShrink();
            var mem: seq<u64> := seq(32, i => if i == 12 then 1 else 0);
            var h', mem' := Heap([true, true, false, false, false, false, false, false],
                                 run[4].table[2 := Extent(0, 0)][0 := Extent(0, 1)]), Copied(mem, 0, 2, 5);
            && HeapInv(run[0], 8) && (forall t | 0 <= t < 4 :: HeapStep(run[t], run[t + 1], 8))
            && run[4].table[1] == Extent(1, 1) && run[4].table[2] == Extent(2, 5)
            && ReallocSpec(run[4], h', 8, 2, 8, 0, mem, mem') && mem'[4] != mem[4]
  {
    ShrinkCalls();
    ShrinkCallsOn();
    ShrinkAnswer();
    ShrinkStartsEmpty();
    hide HeapInv, HeapStep, ReallocSpec;
    var mem: seq<u64> := seq(32, i => if i == 12 then 1 else 0);
    assert Copied(mem, 0, 2, 5)[4] == mem[CopiedFrom(0, 8, 4)];
  }

  lemma ShrinkStartsEmpty()
    ensures HeapInv(RunToShrink()[0], 8)
  {
    var h := RunToShrink()[0];
    assert forall i | 0 <= i < 8 :: !h.bits[i];
    hide HeapInv;
    EmptyHeapAgreesIff(h, 8);
  }

  lemma ShrinkAnswer()
    ensures var run := RunToShrink();
            var mem: seq<u64> := seq(32, i => if i == 12 then 1 else 0);
            ReallocSpec(run[4], Heap([true, true, false, false, false, false, false, false],
                                     run[4].table[2 := Extent(0, 0)][0 := Extent(0, 1)]),
                        8, 2, 8, 0, mem, Copied(mem, 0, 2, 5))
  {
    var h := RunToShrink()[4];
    var freed := Heap([false, true, false, false, false, false, false, false], h.table[2 := Extent(0, 0)]);
    var h' := Heap([true, true, false, false, false, false, false, false], freed.table[0 := Extent(0, 1)]);
    assert FirstMatch(h.table, 2, 2) && FreeAt(h, freed, 2);
    MallocOf(freed, h', 8, 1, 0, 0, 0);
    ShrunkCount();
    hide MallocStep, ReallocCount;
    assert ReallocVia(h, freed, h', 8, 2, 8, 0);
  }

  lemma ShrunkCount()
    ensures ReallocCount(5, 8) == 1
  {
  }

  lemma GrownCount()
    ensures ReallocCount(1, 32) == 2
  {
  }
}
