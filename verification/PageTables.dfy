/** The 4-level page walk of section 4.5 of the Intel SDM, volume 3A, over a physical memory of 64-bit words, and
    the page-table entries kernel/mm/virtualPageManager.c writes. */
module PageTables {
  import opened Words

  datatype Translation = Unmapped | MapsTo(physical: nat)

  /* ---- bitwise or, on words read as numbers ---- */

  function BitOr(a: nat, b: nat): nat
    decreases a + b
  {
    if a == 0 && b == 0 then 0
    else 2 * BitOr(a / 2, b / 2) + if a % 2 == 1 || b % 2 == 1 then 1 else 0
  }

  lemma {:induction false} OrZero(a: nat)
    ensures BitOr(a, 0) == a && BitOr(0, a) == a
  {
    if a > 0 {
      OrZero(a / 2);
    }
  }

  function Shifted(x: nat, k: nat): nat {
    if k == 0 then x else Shifted(x / 2, k - 1)
  }

  /** Each bit of the result is set if and only if it is in one of the operands. */
  lemma {:induction false} OrBit(a: nat, b: nat, k: nat)
    ensures Shifted(BitOr(a, b), k) % 2 == 1 <==> Shifted(a, k) % 2 == 1 || Shifted(b, k) % 2 == 1
    decreases k
  {
    if k > 0 {
      OrBit(a / 2, b / 2, k - 1);
      assert BitOr(a, b) / 2 == BitOr(a / 2, b / 2);
    }
  }

  /** The low k bits of x are clear. */
  predicate LowClear(x: nat, k: nat) {
    k == 0 || (x % 2 == 0 && LowClear(x / 2, k - 1))
  }

  /** f has only its low k bits. */
  predicate OnlyLow(f: nat, k: nat) {
    if k == 0 then f == 0 else OnlyLow(f / 2, k - 1)
  }

  /** Or-ing low bits never touches the clear-bottomed part of a word. */
  lemma {:induction false} OrBelow(x: nat, k: nat, f: nat, g: nat)
    requires LowClear(x, k) && OnlyLow(f, k) && OnlyLow(g, k)
    ensures BitOr(x + f, g) == x + BitOr(f, g)
  {
    if k == 0 {
      OrZero(x);
    } else {
      OrBelow(x / 2, k - 1, f / 2, g / 2);
      assert (x + f) / 2 == x / 2 + f / 2;
    }
  }

  lemma LowClearDoubled(x: nat, k: nat)
    requires LowClear(x, k)
    ensures LowClear(2 * x, k + 1)
  {
  }

  lemma {:induction false} PageIsLowClear(page: nat)
    ensures LowClear(page * PAGESIZE, 12)
  {
    assert LowClear(page, 0);
    hide LowClear;
    var p1 := 2 * page;
    LowClearDoubled(page, 0);
    var p2 := 2 * p1;
    LowClearDoubled(p1, 1);
    var p3 := 2 * p2;
    LowClearDoubled(p2, 2);
    var p4 := 2 * p3;
    LowClearDoubled(p3, 3);
    var p5 := 2 * p4;
    LowClearDoubled(p4, 4);
    var p6 := 2 * p5;
    LowClearDoubled(p5, 5);
    LowClearSixMore(p6);
    assert page * PAGESIZE == p6 * 64;
  }

  lemma LowClearSixMore(p6: nat)
    requires LowClear(p6, 6)
    ensures LowClear(p6 * 64, 12)
  {
    hide LowClear;
    var p7 := 2 * p6;
    LowClearDoubled(p6, 6);
    var p8 := 2 * p7;
    LowClearDoubled(p7, 7);
    var p9 := 2 * p8;
    LowClearDoubled(p8, 8);
    var p10 := 2 * p9;
    LowClearDoubled(p9, 9);
    var p11 := 2 * p10;
    LowClearDoubled(p10, 10);
    LowClearDoubled(p11, 11);
    assert p6 * 64 == 2 * p11;
  }

  lemma FlagsAreLow(f: nat)
    requires f < PAGESIZE
    ensures OnlyLow(f, 12)
  {
    assert OnlyLow(f / 4096, 0);
    assert OnlyLow(f / 2048, 1);
    assert OnlyLow(f / 1024, 2);
    assert OnlyLow(f / 512, 3);
    assert OnlyLow(f / 256, 4);
    assert OnlyLow(f / 128, 5);
    assert OnlyLow(f / 64, 6);
    assert OnlyLow(f / 32, 7);
    assert OnlyLow(f / 16, 8);
    assert OnlyLow(f / 8, 9);
    assert OnlyLow(f / 4, 10);
    assert OnlyLow(f / 2, 11);
  }

  /** Or-ing flags below bit 12 into a page address that carries flags already. */
  lemma OrFlags(page: nat, f: nat, g: nat)
    requires f < PAGESIZE && g < PAGESIZE
    ensures BitOr(page * PAGESIZE + f, g) == page * PAGESIZE + BitOr(f, g)
    ensures BitOr(page * PAGESIZE, g) == page * PAGESIZE + g
  {
    PageIsLowClear(page);
    FlagsAreLow(f);
    FlagsAreLow(g);
    FlagsAreLow(0);
    OrBelow(page * PAGESIZE, 12, f, g);
    OrBelow(page * PAGESIZE, 12, 0, g);
    OrZero(g);
  }

  /** `address | KPAGE_FLAGS`: the macro is unparenthesised, so the two constants are or-ed in one after the other. */
  function KPage(address: nat): nat {
    BitOr(BitOr(address, 4), 3)
  }

  /** `address | (1 << 7) | KPAGE_FLAGS`: a large page. */
  function KLargePage(address: nat): nat {
    BitOr(BitOr(BitOr(address, 128), 4), 3)
  }

  lemma ConstantOrs()
    ensures BitOr(4, 3) == 7 && BitOr(128, 4) == 132 && BitOr(132, 3) == 135
  {
    assert BitOr(1, 0) == 1 && BitOr(2, 1) == 3 && BitOr(4, 3) == 7;
    OrFlags(0, 128, 4);
    assert BitOr(8, 0) == 8 && BitOr(16, 0) == 16 && BitOr(32, 1) == 33 && BitOr(64, 2) == 66;
    assert BitOr(33, 0) == 33 && BitOr(66, 1) == 67;
  }

  lemma KPageIs(page: nat)
    ensures KPage(page * PAGESIZE) == page * PAGESIZE + 7
    ensures KLargePage(page * PAGESIZE) == page * PAGESIZE + 135
  {
    ConstantOrs();
    OrFlags(page, 4, 3);
    OrFlags(page, 0, 4);
    OrFlags(page, 0, 128);
    OrFlags(page, 128, 4);
    OrFlags(page, 132, 3);
  }

  /* ---- the walk ---- */

  /** The word at a physical address; nothing is there beyond the end of memory. */
  function Word(mem: seq<u64>, address: nat): u64 {
    if address / 8 < |mem| then mem[address / 8] else 0
  }

  predicate Present(e: nat) {
    e % 2 == 1
  }

  /** The page-size bit. */
  predicate Large(e: nat) {
    e / 128 % 2 == 1
  }

  /** Bits 51 to 12 of an entry. */
  function FrameOf(e: nat): nat {
    e / 0x1000 % 0x100_0000_0000 * 0x1000
  }

  /** Bits 51 to 21 of a 2 MiB entry. */
  function LargeFrameOf(e: nat): nat {
    e / 0x20_0000 % 0x8000_0000 * 0x20_0000
  }

  /** The reserved bits of a 2 MiB entry, 20 to 13, and of a 1 GiB entry, 29 to 13: a set one faults. */
  predicate ReservedClear(e: nat, bits: nat) {
    bits > 0 && e / 0x2000 % bits == 0
  }

  /** Bits 51 to 30 of a 1 GiB entry. */
  function HugeFrameOf(e: nat): nat {
    e / 0x4000_0000 % 0x40_0000 * 0x4000_0000
  }

  function Index4(v: nat): nat { v / 0x80_0000_0000 % 512 }
  function Index3(v: nat): nat { v / 0x4000_0000 % 512 }
  function Index2(v: nat): nat { v / 0x20_0000 % 512 }
  function Index1(v: nat): nat { v / 0x1000 % 512 }

  /** Bits 63 to 47 all equal. */
  predicate Canonical(v: u64) {
    v < 0x8000_0000_0000 || HIGH_VMA <= v
  }

  function Walk(mem: seq<u64>, pml4: nat, v: u64): Translation {
    var e := Word(mem, pml4 + 8 * Index4(v));
    if Canonical(v) && Present(e) then Walk3(mem, FrameOf(e), v) else Unmapped
  }

  function Walk3(mem: seq<u64>, pml3: nat, v: u64): Translation {
    var e := Word(mem, pml3 + 8 * Index3(v));
    if !Present(e) then Unmapped
    else if Large(e) then
      if ReservedClear(e, 0x2_0000) then MapsTo(HugeFrameOf(e) + v % 0x4000_0000) else Unmapped
    else Walk2(mem, FrameOf(e), v)
  }

  function Walk2(mem: seq<u64>, pml2: nat, v: u64): Translation {
    var e := Word(mem, pml2 + 8 * Index2(v));
    if !Present(e) then Unmapped
    else if Large(e) then
      if ReservedClear(e, 0x100) then MapsTo(LargeFrameOf(e) + v % 0x20_0000) else Unmapped
    else Walk1(mem, FrameOf(e), v)
  }

  function Walk1(mem: seq<u64>, pml1: nat, v: u64): Translation {
    var e := Word(mem, pml1 + 8 * Index1(v));
    if Present(e) then MapsTo(FrameOf(e) + v % 0x1000) else Unmapped
  }

  /* ---- the kernel's own tables ---- */

  const KPML4: nat := 0x20_0000
  const KPML3: nat := 0x20_1000
  const KPML2_1G: nat := 0x20_2000
  const KPML2_HH: nat := 0x20_6000
  const KPML3_HH: nat := 0x20_7000
  const KTABLES_END: nat := 0x20_8000

  /** What initVMM leaves in entry `i` of kernel table `table` (the eight pages from 0x200000 on). */
  function KernelEntry(table: nat, i: nat): nat {
    if table == 0 then if i == 0 || i == 256 then KPML3 + 7 else if i == 511 then KPML3_HH + 7 else 0
    else if table == 1 then if i < 4 then KPML2_1G + i * 0x1000 + 7 else 0
    else if table < 6 then (table - 2) * 0x4000_0000 + i * 0x20_0000 + 135
    else if table == 6 then i * 0x20_0000 + 135
    else if i == 510 then KPML2_HH + 7 else 0
  }

  ghost predicate KernelTables(mem: seq<u64>) {
    forall table, i | 0 <= table < 8 && 0 <= i < 512 ::
      Word(mem, KPML4 + table * 0x1000 + 8 * i) == KernelEntry(table, i)
  }

  /** What the kernel's tables are for: physical memory below 4 GiB at 0 and at HIGH_VMA, its first gigabyte at
      KERNEL_HIGH_VMA, and nothing anywhere else. */
  function KernelMap(v: u64): Translation {
    if v < 0x1_0000_0000 then MapsTo(v)
    else if HIGH_VMA <= v < HIGH_VMA + 0x1_0000_0000 then MapsTo(v - HIGH_VMA)
    else if KERNEL_HIGH_VMA <= v < KERNEL_HIGH_VMA + 0x4000_0000 then MapsTo(v - KERNEL_HIGH_VMA)
    else Unmapped
  }

  /* ---- reading an entry: a page or a frame, and what is below it ---- */

  lemma PageQuotients(page: nat, low: nat)
    requires low < 0x1000
    ensures (page * 0x1000 + low) / 128 == page * 32 + low / 128
    ensures (page * 0x1000 + low) / 0x1000 == page
  {
  }

  lemma EvenPlus(half: nat, low: nat)
    ensures (2 * half + low) % 2 == low % 2
  {
  }

  lemma EntryParts(page: nat, low: nat)
    requires page < 0x100_0000_0000 && low < 0x1000
    ensures var e := page * 0x1000 + low;
            && (Present(e) <==> Present(low)) && (Large(e) <==> Large(low)) && FrameOf(e) == page * 0x1000
  {
    PageQuotients(page, low);
    EvenPlus(page * 0x800, low);
    EvenPlus(page * 16, low / 128);
  }

  lemma TableEntry(page: nat)
    requires page < 0x100_0000_0000
    ensures var e := page * 0x1000 + 7; Present(e) && !Large(e) && FrameOf(e) == page * 0x1000
  {
    EntryParts(page, 7);
    assert Present(7) && !Large(7);
    hide Present, Large, FrameOf;
  }

  lemma FrameQuotients(frame: nat, low: nat)
    requires low < 0x20_0000
    ensures (frame * 0x20_0000 + low) / 128 == frame * 0x4000 + low / 128
    ensures (frame * 0x20_0000 + low) / 0x2000 == frame * 0x100 + low / 0x2000
    ensures (frame * 0x20_0000 + low) / 0x20_0000 == frame
  {
  }

  lemma LargeEntryParts(frame: nat, low: nat)
    requires frame < 0x8000_0000 && low < 0x20_0000
    ensures var e := frame * 0x20_0000 + low;
            && (Present(e) <==> Present(low)) && (Large(e) <==> Large(low))
            && LargeFrameOf(e) == frame * 0x20_0000 && (low < 0x2000 ==> ReservedClear(e, 0x100))
  {
    FrameQuotients(frame, low);
    EvenPlus(frame * 0x10_0000, low);
    EvenPlus(frame * 0x2000, low / 128);
  }

  lemma LargeEntry(frame: nat)
    requires frame < 0x8000_0000
    ensures var e := frame * 0x20_0000 + 135;
            && Present(e) && Large(e) && ReservedClear(e, 0x100) && LargeFrameOf(e) == frame * 0x20_0000
  {
    LargeEntryParts(frame, 135);
    assert Present(135) && Large(135);
    hide Present, Large, LargeFrameOf, ReservedClear;
  }

  lemma KernelWalk2(mem: seq<u64>, table: nat, v: u64)
    requires KernelTables(mem) && 2 <= table <= 6
    ensures Walk2(mem, KPML4 + table * 0x1000, v)
            == MapsTo((if table == 6 then 0 else table - 2) * 0x4000_0000 + v % 0x4000_0000)
  {
    var i := Index2(v);
    var frame := (if table == 6 then 0 else table - 2) * 512 + i;
    assert Word(mem, KPML4 + table * 0x1000 + 8 * i) == KernelEntry(table, i) == frame * 0x20_0000 + 135;
    LargeEntry(frame);
    assert i * 0x20_0000 + v % 0x20_0000 == v % 0x4000_0000;
  }

  lemma KernelWalkLow(mem: seq<u64>, v: u64)
    requires KernelTables(mem)
    ensures Walk3(mem, KPML3, v)
            == if Index3(v) < 4 then MapsTo(Index3(v) * 0x4000_0000 + v % 0x4000_0000) else Unmapped
  {
    var i := Index3(v);
    assert Word(mem, KPML4 + 1 * 0x1000 + 8 * i) == KernelEntry(1, i);
    if i < 4 {
      TableEntry(0x202 + i);
      KernelWalk2(mem, 2 + i, v);
    }
  }

  lemma KernelWalkHigh(mem: seq<u64>, v: u64)
    requires KernelTables(mem)
    ensures Walk3(mem, KPML3_HH, v) == if Index3(v) == 510 then MapsTo(v % 0x4000_0000) else Unmapped
  {
    var i := Index3(v);
    assert Word(mem, KPML4 + 7 * 0x1000 + 8 * i) == KernelEntry(7, i);
    if i == 510 {
      TableEntry(0x206);
      KernelWalk2(mem, 6, v);
    }
  }

  lemma Gigabytes(v: u64)
    ensures Index4(v) == v / 0x4000_0000 / 512 % 512 && Index3(v) == v / 0x4000_0000 % 512
    ensures v == v / 0x4000_0000 * 0x4000_0000 + v % 0x4000_0000
  {
    assert v / 0x80_0000_0000 == v / 0x4000_0000 / 512;
  }

  /** `KernelMap` read by the top two indices of an address. */
  lemma KernelMapByIndex(v: u64)
    requires Canonical(v)
    ensures KernelMap(v) ==
      if Index4(v) == 0 || Index4(v) == 256 then
        if Index3(v) < 4 then MapsTo(Index3(v) * 0x4000_0000 + v % 0x4000_0000) else Unmapped
      else if Index4(v) == 511 && Index3(v) == 510 then MapsTo(v % 0x4000_0000) else Unmapped
  {
    Gigabytes(v);
    MapByGigabyte(v);
    GigabyteIndices(v / 0x4000_0000);
    hide Index4, Index3, KernelMap;
  }

  lemma MapByGigabyte(v: u64)
    requires Canonical(v)
    ensures var g, low := v / 0x4000_0000, v % 0x4000_0000;
            && (g < 0x2_0000 || 0x3_fffe_0000 <= g < 0x4_0000_0000)
            && KernelMap(v)
               == if g < 4 then MapsTo(g * 0x4000_0000 + low)
                  else if 0x3_fffe_0000 <= g < 0x3_fffe_0004 then MapsTo((g - 0x3_fffe_0000) * 0x4000_0000 + low)
                  else if g == 0x3_ffff_fffe then MapsTo(low) else Unmapped
  {
    var g, low := v / 0x4000_0000, v % 0x4000_0000;
    assert v == g * 0x4000_0000 + low && low < 0x4000_0000;
  }

  lemma GigabyteIndices(g: nat)
    requires g < 0x2_0000 || 0x3_fffe_0000 <= g < 0x4_0000_0000
    ensures (g / 512 % 512 == 0 <==> g < 512) && (g / 512 % 512 == 256 <==> 0x3_fffe_0000 <= g < 0x3_fffe_0200)
    ensures g / 512 % 512 == 511 <==> 0x3_ffff_fe00 <= g
    ensures g < 512 ==> g % 512 == g
    ensures 0x3_fffe_0000 <= g < 0x3_fffe_0200 ==> g % 512 == g - 0x3_fffe_0000
    ensures 0x3_ffff_fe00 <= g ==> g % 512 == g - 0x3_ffff_fe00
  {
  }

  /** The kernel's address space translates every 64-bit address exactly as it is meant to. */
  lemma KernelWalkExact(mem: seq<u64>, v: u64)
    requires KernelTables(mem)
    ensures Walk(mem, KPML4, v) == KernelMap(v)
  {
    var i := Index4(v);
    assert Word(mem, KPML4 + 0 * 0x1000 + 8 * i) == KernelEntry(0, i);
    hide KernelTables, KernelMap, Walk3, Index4, Index3;
    TableEntry(0x201);
    TableEntry(0x207);
    if Canonical(v) {
      KernelMapByIndex(v);
      if i == 0 || i == 256 {
        KernelWalkLow(mem, v);
      } else if i == 511 {
        KernelWalkHigh(mem, v);
      }
    } else {
      NothingOutsideCanonical(v);
    }
  }

  lemma NothingOutsideCanonical(v: u64)
    requires !Canonical(v)
    ensures KernelMap(v) == Unmapped
  {
  }
}
