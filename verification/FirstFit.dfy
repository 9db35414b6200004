/** First-fit search over a bitmap and the ledger of extents it hands out; the kernel heap
    (kernel/mm/kHeap.c) and the physical page manager (kernel/mm/physicalPageManager.c) are both
    one of these over their own bitmap. */
module FirstFit {
  import opened MemUtils
  import opened FiniteSets

  /** A run of consecutive blocks; size 0 is a dead entry and owns nothing. */
  datatype Extent = Extent(block: nat, size: nat)

  ghost predicate FreeRun(bits: seq<bool>, n: nat, base: nat, count: nat) {
    base + count <= n <= |bits| && forall j | base <= j < base + count :: !bits[j]
  }

  /** `base` starts a free run of `count` blocks and no lower block does. */
  ghost predicate IsFirstFit(bits: seq<bool>, n: nat, count: nat, base: nat) {
    FreeRun(bits, n, base, count) && forall b | 0 <= b < base :: !FreeRun(bits, n, b, count)
  }

  ghost predicate HasRun(bits: seq<bool>, n: nat, count: nat) {
    exists b :: 0 <= b && FreeRun(bits, n, b, count)
  }

  /** Where the search loop stands before looking at block `i` with `cnt` free blocks behind it. */
  ghost predicate Searching(bits: seq<bool>, n: nat, count: nat, i: nat, cnt: nat) {
    && cnt <= i <= n <= |bits|
    && (forall j | i - cnt <= j < i :: !bits[j])
    && (count > 0 ==> cnt < count && forall b | 0 <= b < i - cnt :: !FreeRun(bits, n, b, count))
  }

  lemma SearchFromFirstFree(bits: seq<bool>, n: nat, count: nat, first: nat)
    requires first <= n <= |bits| && forall j | 0 <= j < first :: bits[j]
    ensures Searching(bits, n, count, first, 0)
  {
    forall b | 0 <= b < first && count > 0
      ensures !FreeRun(bits, n, b, count)
    {
      assert bits[b];
    }
  }

  lemma SearchBlocked(bits: seq<bool>, n: nat, count: nat, i: nat, cnt: nat)
    requires Searching(bits, n, count, i, cnt) && i < n && bits[i]
    ensures Searching(bits, n, count, i + 1, 0)
  {
    forall b | 0 <= b <= i && count > 0
      ensures !FreeRun(bits, n, b, count)
    {
      if b >= i - cnt {
        assert b <= i < b + count;
      }
    }
  }

  lemma SearchDone(bits: seq<bool>, n: nat, count: nat, i: nat, cnt: nat)
    requires Searching(bits, n, count, i, cnt)
    ensures i == n && count > 0 ==> !HasRun(bits, n, count)
    ensures i < n && !bits[i] && cnt + 1 == count ==> IsFirstFit(bits, n, count, i - cnt)
    ensures i < n && !bits[i] && cnt + 1 != count ==> Searching(bits, n, count, i + 1, cnt + 1)
  {
    if i == n && count > 0 {
      forall b | 0 <= b
        ensures !FreeRun(bits, n, b, count)
      {
      }
    }
  }

  /** After a run of `size` blocks at `old` is released, first fit puts any new run at or below the old
      start or wholly past the old end: it never lands strictly inside the run just released. */
  lemma FirstFitNeverStraddles(bits: seq<bool>, n: nat, was: nat, size: nat, count: nat, base: nat)
    requires FreeRun(bits, n, was, size) && count > 0 && IsFirstFit(bits, n, count, base)
    ensures base <= was || was + size <= base
  {
    if was < base < was + size {
      assert FreeRun(bits, n, base - 1, count);
    }
  }

  /* ---- the ledger ---- */

  ghost predicate Owns(e: Extent, i: int) {
    e.block <= i < e.block + e.size
  }

  ghost predicate OwnedBySome(exts: seq<Extent>, i: int) {
    exists k :: 0 <= k < |exts| && Owns(exts[k], i)
  }

  ghost predicate Disjoint(exts: seq<Extent>) {
    forall k, l, i | 0 <= k < |exts| && 0 <= l < |exts| && Owns(exts[k], i) && Owns(exts[l], i) :: k == l
  }

  /** The extents are in bounds, pairwise disjoint and off the reserved blocks, and together with the
      reserved blocks they are exactly the set bits. */
  ghost predicate Ledger(bits: seq<bool>, n: nat, reserved: set<int>, exts: seq<Extent>) {
    && n <= |bits|
    && (forall k | 0 <= k < |exts| :: exts[k].block + exts[k].size <= n)
    && Disjoint(exts)
    && (forall k, i | 0 <= k < |exts| && Owns(exts[k], i) :: i !in reserved)
    && (forall i | 0 <= i < n :: bits[i] <==> i in reserved || OwnedBySome(exts, i))
  }

  /** What replacing one entry does to the blocks owned. */
  lemma OwnedAfterUpdate(exts: seq<Extent>, slot: nat, e: Extent, i: int)
    requires slot < |exts| && Disjoint(exts)
    ensures OwnedBySome(exts[slot := e], i)
            <==> Owns(e, i) || (OwnedBySome(exts, i) && !Owns(exts[slot], i))
  {
    var after := exts[slot := e];
    if OwnedBySome(after, i) {
      var k :| 0 <= k < |exts| && Owns(after[k], i);
      assert k != slot ==> Owns(exts[k], i);
    }
    if OwnedBySome(exts, i) {
      var k :| 0 <= k < |exts| && Owns(exts[k], i);
      assert k != slot ==> Owns(after[k], i);
    }
    assert Owns(e, i) ==> Owns(after[slot], i);
  }

  /** Recording a free run in a dead entry keeps the ledger. */
  lemma LedgerPlace(bits: seq<bool>, n: nat, reserved: set<int>, exts: seq<Extent>, slot: nat, base: nat, count: nat)
    requires Ledger(bits, n, reserved, exts) && FreeRun(bits, n, base, count)
    requires slot < |exts| && exts[slot].size == 0
    ensures Ledger(Fill(bits, base, count, true), n, reserved, exts[slot := Extent(base, count)])
  {
    var after := exts[slot := Extent(base, count)];
    forall i: int | base <= i < base + count
      ensures !OwnedBySome(exts, i) && i !in reserved
    {
      assert !bits[i];
    }
    forall k, l, i | 0 <= k < |after| && 0 <= l < |after| && Owns(after[k], i) && Owns(after[l], i)
      ensures k == l
    {
      assert k != slot ==> Owns(exts[k], i) && OwnedBySome(exts, i);
      assert l != slot ==> Owns(exts[l], i) && OwnedBySome(exts, i);
    }
    forall i | 0 <= i < n
      ensures Fill(bits, base, count, true)[i] <==> i in reserved || OwnedBySome(after, i)
    {
      OwnedAfterUpdate(exts, slot, Extent(base, count), i);
    }
  }

  /** Killing an entry and clearing exactly its blocks keeps the ledger. */
  lemma LedgerRelease(bits: seq<bool>, n: nat, reserved: set<int>, exts: seq<Extent>, slot: nat)
    requires Ledger(bits, n, reserved, exts) && slot < |exts|
    ensures var e := exts[slot];
            Ledger(Fill(bits, e.block, e.size, false), n, reserved, exts[slot := Extent(0, 0)])
  {
    var e := exts[slot];
    var after := exts[slot := Extent(0, 0)];
    forall k, i | 0 <= k < |after| && Owns(after[k], i)
      ensures k != slot && Owns(exts[k], i)
    {
    }
    forall i | 0 <= i < n
      ensures Fill(bits, e.block, e.size, false)[i] <==> i in reserved || OwnedBySome(after, i)
    {
      OwnedAfterUpdate(exts, slot, Extent(0, 0), i);
      assert Owns(e, i) ==> Owns(exts[slot], i);
    }
  }

  /** Marking a free run and clearing it again gives the bitmap back. */
  lemma FillUndone(bits: seq<bool>, n: nat, base: nat, count: nat)
    requires FreeRun(bits, n, base, count)
    ensures Fill(Fill(bits, base, count, true), base, count, false) == bits
  {
  }

  ghost function TotalSize(exts: seq<Extent>): nat {
    if exts == [] then 0 else TotalSize(exts[..|exts| - 1]) + exts[|exts| - 1].size
  }

  /** The blocks lo, lo + 1, ..., lo + size - 1. */
  ghost function Interval(lo: int, size: nat): (r: set<int>)
    ensures forall i :: i in r <==> lo <= i < lo + size
    ensures |r| == size
  {
    if size == 0 then {} else Interval(lo, size - 1) + {lo + size - 1}
  }

  ghost function Owned(exts: seq<Extent>): (r: set<int>)
    ensures forall i :: i in r <==> OwnedBySome(exts, i)
  {
    if exts == [] then {} else
      var last := |exts| - 1;
      var rest := exts[..last];
      assert forall i :: OwnedBySome(exts, i) <==> OwnedBySome(rest, i) || Owns(exts[last], i);
      Owned(rest) + Interval(exts[last].block, exts[last].size)
  }

  lemma DisjointPrefix(exts: seq<Extent>)
    requires Disjoint(exts) && exts != []
    ensures Disjoint(exts[..|exts| - 1])
    ensures Owned(exts[..|exts| - 1]) !! Interval(exts[|exts| - 1].block, exts[|exts| - 1].size)
  {
    var last := |exts| - 1;
    var rest := exts[..last];
    forall k, l, i | 0 <= k < last && 0 <= l < last && Owns(rest[k], i) && Owns(rest[l], i)
      ensures k == l
    {
      assert Owns(exts[k], i) && Owns(exts[l], i);
    }
    forall i | i in Owned(rest)
      ensures i !in Interval(exts[last].block, exts[last].size)
    {
      var k :| 0 <= k < last && Owns(rest[k], i);
      assert Owns(exts[k], i) && (Owns(exts[last], i) ==> k == last);
    }
  }

  lemma {:induction false} OwnedSize(exts: seq<Extent>)
    requires Disjoint(exts)
    ensures |Owned(exts)| == TotalSize(exts)
  {
    if exts != [] {
      DisjointPrefix(exts);
      OwnedSize(exts[..|exts| - 1]);
    }
  }

  /** The set bits among the first n. */
  ghost function Used(bits: seq<bool>, n: nat): set<int>
    requires n <= |bits|
  {
    set i | 0 <= i < n && bits[i]
  }

  /** Conservation: the number of set bits is the reserved blocks plus the sum of the live sizes. */
  lemma LedgerConserves(bits: seq<bool>, n: nat, reserved: set<int>, exts: seq<Extent>)
    requires Ledger(bits, n, reserved, exts)
    requires forall i | i in reserved :: 0 <= i < n
    ensures |Used(bits, n)| == |reserved| + TotalSize(exts)
  {
    OwnedSize(exts);
    forall i | OwnedBySome(exts, i) ensures 0 <= i < n && i !in reserved {
      var k :| 0 <= k < |exts| && Owns(exts[k], i);
    }
    assert Used(bits, n) == reserved + Owned(exts);
    assert reserved !! Owned(exts);
  }

  /** A table at least as long as the bitmap always has a dead entry while some block is free. */
  lemma DeadEntryExists(bits: seq<bool>, n: nat, exts: seq<Extent>, free: nat)
    requires Ledger(bits, n, {}, exts) && free < n && !bits[free] && n <= |exts|
    ensures exists k :: 0 <= k < |exts| && exts[k].size == 0
  {
    LedgerConserves(bits, n, {}, exts);
    var all := Interval(0, n);
    assert Used(bits, n) <= all - {free};
    SubsetSize(Used(bits, n), all - {free});
    if forall k | 0 <= k < |exts| :: exts[k].size != 0 {
      AllLiveTotal(exts);
    }
  }

  lemma {:induction false} AllLiveTotal(exts: seq<Extent>)
    requires forall k | 0 <= k < |exts| :: exts[k].size != 0
    ensures TotalSize(exts) >= |exts|
  {
    if exts != [] {
      AllLiveTotal(exts[..|exts| - 1]);
    }
  }
}
