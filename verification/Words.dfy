/** 64-bit words and the constants of kernel/mm/virtualPageManager.h. */
module Words {
  const TWO_TO_64: nat := 0x1_0000_0000_0000_0000

  type u64 = x: nat | x < TWO_TO_64

  const PAGESIZE: nat := 0x1000
  const HIGH_VMA: u64 := 0xffff_8000_0000_0000
  const KERNEL_HIGH_VMA: u64 := 0xffff_ffff_8000_0000

  /** Unsigned 64-bit wrap-around. */
  function U64(x: int): u64 {
    x % TWO_TO_64
  }

  /** The macro ROUNDUP on 64-bit operands: the sum wraps, the quotient does not. */
  function RoundUp(a: u64, b: u64): u64
    requires b > 0
  {
    U64(a + (b - 1)) / b
  }

  /** Rounding up gives the least number of units that cover `a` if and only if the sum does not wrap; when it wraps
      the answer is 0. */
  lemma RoundUpCoversIff(a: u64, b: u64)
    requires b > 0
    ensures a <= RoundUp(a, b) * b <==> a + (b - 1) < TWO_TO_64
    ensures a + (b - 1) < TWO_TO_64 ==> RoundUp(a, b) * b < a + b
    ensures a + (b - 1) >= TWO_TO_64 ==> RoundUp(a, b) == 0
  {
    var sum := a + (b - 1);
    assert U64(sum) == if sum < TWO_TO_64 then sum else sum - TWO_TO_64;
    Quotient(U64(sum), b);
    var q, r := RoundUp(a, b), U64(sum) % b;
    assert U64(sum) == q * b + r;
    hide RoundUp, U64;
  }

  lemma Quotient(x: nat, b: nat)
    requires b > 0
    ensures x == x / b * b + x % b && x % b < b && (x < b ==> x / b == 0)
  {
  }
}
