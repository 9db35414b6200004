/** The byte-packed bit set and the forward word copy of lib/libk/memUtils.c. */
module MemUtils {
  import opened Words

  /** Bit `k` of one byte. */
  function ByteBit(b: bv8, k: nat): bool
    requires k < 8
  {
    (b >> k) & 1 == 1
  }

  /** `isset`: bit `location` of a byte-packed bitmap. */
  function IsSet(bytes: seq<bv8>, location: nat): bool
    requires location < 8 * |bytes|
  {
    ByteBit(bytes[location / 8], location % 8)
  }

  /** The bitmap seen as one flag per location. */
  ghost function Bits(bytes: seq<bv8>): (bits: seq<bool>)
    ensures |bits| == 8 * |bytes|
    ensures forall i :: 0 <= i < |bits| ==> bits[i] == IsSet(bytes, i)
  {
    seq(8 * |bytes|, i requires 0 <= i < 8 * |bytes| => IsSet(bytes, i))
  }

  function WithBit(b: bv8, k: nat): bv8
    requires k < 8
  {
    b | ((1 as bv8) << k)
  }

  function WithoutBit(b: bv8, k: nat): bv8
    requires k < 8
  {
    b & !((1 as bv8) << k)
  }

  /** Bit k of a byte is worth 2 to the k. */
  lemma ByteIsItsBits(b: bv8)
    ensures b == (if ByteBit(b, 0) then 1 else 0) + (if ByteBit(b, 1) then 2 else 0)
                 + (if ByteBit(b, 2) then 4 else 0) + (if ByteBit(b, 3) then 8 else 0)
                 + (if ByteBit(b, 4) then 16 else 0) + (if ByteBit(b, 5) then 32 else 0)
                 + (if ByteBit(b, 6) then 64 else 0) + (if ByteBit(b, 7) then 128 else 0)
  {
  }

  /** Flag `location` of a bitmap is bit `location % 8` of byte `location / 8`. */
  lemma FlagIsBit(bytes: seq<bv8>, location: nat)
    requires location < 8 * |bytes|
    ensures Bits(bytes)[location] == IsSet(bytes, location)
    ensures bytes == [0, 0x20] && location < 16 ==> (IsSet(bytes, location) <==> location == 13)
  {
    if bytes == [0, 0x20] && location < 16 {
      var k := location % 8;
      assert (0 as bv8) >> k == 0;
      assert ((0x20 as bv8) >> k) & 1 == if k == 5 then 1 else 0;
    }
  }

  lemma WithBitExact(b: bv8, k: nat, j: nat)
    requires k < 8 && j < 8
    ensures ByteBit(WithBit(b, k), j) == (j == k || ByteBit(b, j))
  {
    var m: bv8 := (1 as bv8) << k;
    assert m == [0x01, 0x02, 0x04, 0x08, 0x10, 0x20, 0x40, 0x80 as bv8][k];
  }

  lemma WithoutBitExact(b: bv8, k: nat, j: nat)
    requires k < 8 && j < 8
    ensures ByteBit(WithoutBit(b, k), j) == (j != k && ByteBit(b, j))
  {
    var m: bv8 := (1 as bv8) << k;
    assert m == [0x01, 0x02, 0x04, 0x08, 0x10, 0x20, 0x40, 0x80 as bv8][k];
  }

  /** Rewriting the byte that holds `location` changes that one flag and no neighbour in the byte. */
  lemma ByteUpdate(bytes: seq<bv8>, location: nat, b: bv8, value: bool)
    requires location < 8 * |bytes|
    requires forall j | 0 <= j < 8 ::
      ByteBit(b, j) == if j == location % 8 then value else ByteBit(bytes[location / 8], j)
    ensures Bits(bytes[location / 8 := b]) == Bits(bytes)[location := value]
  {
    var after := bytes[location / 8 := b];
    forall i | 0 <= i < 8 * |bytes|
      ensures Bits(after)[i] == Bits(bytes)[location := value][i]
    {
      if i / 8 == location / 8 {
        assert (i == location) == (i % 8 == location % 8);
      }
    }
  }

  method Set(bitmap: array<bv8>, location: nat)
    requires location < 8 * bitmap.Length
    modifies bitmap
    ensures Bits(bitmap[..]) == old(Bits(bitmap[..]))[location := true]
  {
    ghost var before := bitmap[..];
    var b := WithBit(bitmap[location / 8], location % 8);
    bitmap[location / 8] := b;
    forall j | 0 <= j < 8
      ensures ByteBit(b, j) == if j == location % 8 then true else ByteBit(before[location / 8], j)
    {
      WithBitExact(before[location / 8], location % 8, j);
    }
    ByteUpdate(before, location, b, true);
    assert bitmap[..] == before[location / 8 := b];
  }

  method Clear(bitmap: array<bv8>, location: nat)
    requires location < 8 * bitmap.Length
    modifies bitmap
    ensures Bits(bitmap[..]) == old(Bits(bitmap[..]))[location := false]
  {
    ghost var before := bitmap[..];
    var b := WithoutBit(bitmap[location / 8], location % 8);
    bitmap[location / 8] := b;
    forall j | 0 <= j < 8
      ensures ByteBit(b, j) == if j == location % 8 then false else ByteBit(before[location / 8], j)
    {
      WithoutBitExact(before[location / 8], location % 8, j);
    }
    ByteUpdate(before, location, b, false);
    assert bitmap[..] == before[location / 8 := b];
  }

  /** `bits` with the run [base, base + count) overwritten by `value`. */
  ghost function Fill(bits: seq<bool>, base: nat, count: nat, value: bool): (r: seq<bool>)
    requires base + count <= |bits|
    ensures |r| == |bits|
    ensures forall i :: 0 <= i < |r| ==> r[i] == if base <= i < base + count then value else bits[i]
  {
    seq(|bits|, i requires 0 <= i < |bits| => if base <= i < base + count then value else bits[i])
  }

  /** The loop `set(bitmap, first + j)` for j below `count`. */
  method SetRun(bitmap: array<bv8>, first: nat, count: nat)
    requires first + count <= 8 * bitmap.Length
    modifies bitmap
    ensures Bits(bitmap[..]) == Fill(old(Bits(bitmap[..])), first, count, true)
  {
    for j := 0 to count
      invariant Bits(bitmap[..]) == Fill(old(Bits(bitmap[..])), first, j, true)
    {
      Set(bitmap, first + j);
    }
  }

  /** The loop `clear(bitmap, first + j)` for j below `count`. */
  method ClearRun(bitmap: array<bv8>, first: nat, count: nat)
    requires first + count <= 8 * bitmap.Length
    modifies bitmap
    ensures Bits(bitmap[..]) == Fill(old(Bits(bitmap[..])), first, count, false)
  {
    for j := 0 to count
      invariant Bits(bitmap[..]) == Fill(old(Bits(bitmap[..])), first, j, false)
    {
      Clear(bitmap, first + j);
    }
  }

  /** `memset` on bytes. */
  method MemSet(bytes: array<bv8>, data: bv8, count: nat)
    requires count <= bytes.Length
    modifies bytes
    ensures bytes[count..] == old(bytes[count..])
    ensures forall i :: 0 <= i < count ==> bytes[i] == data
  {
    for i := 0 to count
      invariant bytes[count..] == old(bytes[count..])
      invariant forall j :: 0 <= j < i ==> bytes[j] == data
    {
      bytes[i] := data;
    }
  }

  /** The word of the old memory that a forward copy leaves in destination word `i`: source word `i`, except
      that a destination starting inside the source repeats the words between the two starts. */
  function CopiedFrom(dest: nat, src: nat, i: nat): (w: nat)
    ensures w <= src + i
  {
    if src < dest && dest - src <= i then CopiedFrom(dest, src, i - (dest - src)) else src + i
  }

  /** The next word a forward copy reads is the one `CopiedFrom` names. */
  lemma NextCopied(dest: nat, src: nat, i: nat)
    ensures (if dest <= src + i < dest + i then CopiedFrom(dest, src, src + i - dest) else src + i)
            == CopiedFrom(dest, src, i)
  {
  }

  /** `memcpy64` with both ranges in one memory, exact for every overlap. */
  method MemCpy64(mem: array<u64>, dest: nat, src: nat, count: nat)
    requires dest + count <= mem.Length && src + count <= mem.Length
    modifies mem
    ensures forall w :: 0 <= w < mem.Length ==>
      mem[w] == old(mem[..])[if dest <= w < dest + count then CopiedFrom(dest, src, w - dest) else w]
  {
    hide CopiedFrom;
    ghost var before := mem[..];
    for i := 0 to count
      invariant forall w :: 0 <= w < mem.Length ==>
        mem[w] == before[if dest <= w < dest + i then CopiedFrom(dest, src, w - dest) else w]
    {
      NextCopied(dest, src, i);
      mem[dest + i] := mem[src + i];
    }
  }

  /** The same routine from one memory to another. */
  method MemCpy64Across(to: array<u64>, dest: nat, from: array<u64>, src: nat, count: nat)
    requires to != from && dest + count <= to.Length && src + count <= from.Length
    modifies to
    ensures to[..] == old(to[..dest]) + from[src..src + count] + old(to[dest + count..])
  {
    for i := 0 to count
      invariant to[..] == old(to[..dest]) + from[src..src + i] + old(to[dest + i..])
    {
      ghost var before := to[..];
      to[dest + i] := from[src + i];
      assert to[..] == before[dest + i := from[src + i]];
    }
  }

  /** A forward copy delivers every source word exactly when it does not start strictly inside its source. */
  lemma CopyExact(dest: nat, src: nat, count: nat)
    ensures (forall i :: 0 <= i < count ==> CopiedFrom(dest, src, i) == src + i)
            <==> !(src < dest < src + count)
  {
    if src < dest < src + count {
      assert CopiedFrom(dest, src, dest - src) == src;
    }
  }
}
