/** The walk over the records of the MADT in kernel/acpi/madt.c; section 5.2.12 of the ACPI Specification. */
module Madt {

  type byte = x: nat | x < 256
  type word = x: nat | x < 0x1_0000
  type dword = x: nat | x < 0x1_0000_0000

  /* ---- little-endian fields ---- */

  function Le2(b: seq<byte>, at: nat): word
    requires at + 2 <= |b|
  {
    b[at] as int + 0x100 * b[at + 1] as int
  }

  function Le4(b: seq<byte>, at: nat): dword
    requires at + 4 <= |b|
  {
    b[at] as int + 0x100 * b[at + 1] as int + 0x1_0000 * b[at + 2] as int + 0x100_0000 * b[at + 3] as int
  }

  /** The n low bytes of a number, lowest first. */
  function Bytes(x: nat, n: nat): (b: seq<byte>)
    ensures |b| == n
  {
    if n == 0 then [] else [x % 256] + Bytes(x / 256, n - 1)
  }

  /* ---- the kernel's records: the payload after the two header bytes ---- */

  datatype Lapic = Lapic(acpiProcessorID: byte, apicID: byte, flags: dword)
  datatype IoApic = IoApic(ioapicID: byte, reserved: byte, ioapicAddr: dword, gsiBase: dword)
  datatype IrqOverride = IrqOverride(busSrc: byte, irqSrc: byte, gsi: dword, flags: word)
  datatype LapicNmi = LapicNmi(acpiProcessorID: byte, flags: word, lint: byte)
  datatype LapicOverride = LapicOverride(reserved: word, lapicOverride: byte)

  datatype Info = Info(lapics: seq<Lapic>, ioapics: seq<IoApic>, overrides: seq<IrqOverride>, nmis: seq<LapicNmi>,
                       addresses: seq<LapicOverride>)

  const NOTHING := Info([], [], [], [], [])

  /** How many payload bytes the kernel reads for a record type. */
  function Payload(entryType: byte): nat {
    match entryType
    case 0 => 6
    case 1 => 10
    case 2 => 8
    case 4 => 4
    case 5 => 3
    case _ => 0
  }

  /** One record, whose payload starts at i, taken into the lists. */
  function Taken(info: Info, entryType: byte, b: seq<byte>, i: nat): Info
    requires i + Payload(entryType) <= |b|
  {
    match entryType
    case 0 => info.(lapics := info.lapics + [Lapic(b[i], b[i + 1], Le4(b, i + 2))])
    case 1 => info.(ioapics := info.ioapics + [IoApic(b[i], b[i + 1], Le4(b, i + 2), Le4(b, i + 6))])
    case 2 => info.(overrides := info.overrides + [IrqOverride(b[i], b[i + 1], Le4(b, i + 2), Le2(b, i + 6))])
    case 4 => info.(nmis := info.nmis + [LapicNmi(b[i], Le2(b, i + 1), b[i + 3])])
    case 5 => info.(addresses := info.addresses + [LapicOverride(Le2(b, i), b[i + 2])])
    case _ => info
  }

  /** The five lists were allocated with room for this many records each. */
  const ROOM := 50

  predicate Fits(info: Info) {
    |info.lapics| <= ROOM && |info.ioapics| <= ROOM && |info.overrides| <= ROOM && |info.nmis| <= ROOM
    && |info.addresses| <= ROOM
  }

  /* ---- what the table means: records, and the offsets at which they start ---- */

  /** From offset i on, the bytes split into records: header and payload readable, no record of length 0, and no more
      records of a type than there is room for. */
  predicate Walkable(b: seq<byte>, i: nat, len: nat, info: Info)
    requires len <= |b|
    decreases len - i
  {
    Fits(info) &&
    (i < len ==>
      && i + 2 <= |b| && i + 2 + Payload(b[i]) <= |b| && b[i + 1] != 0
      && Walkable(b, i + b[i + 1], len, Taken(info, b[i], b, i + 2)))
  }

  /** The offsets at which records start, from i on. */
  ghost function Starts(b: seq<byte>, i: nat, len: nat, info: Info): (r: seq<nat>)
    requires len <= |b| && Walkable(b, i, len, info)
    decreases len - i
  {
    if i >= len then [] else [i] + Starts(b, i + b[i + 1], len, Taken(info, b[i], b, i + 2))
  }

  /** The lists once the walk from i on is done. */
  ghost function Walked(b: seq<byte>, i: nat, len: nat, info: Info): Info
    requires len <= |b| && Walkable(b, i, len, info)
    decreases len - i
  {
    if i >= len then info else Walked(b, i + b[i + 1], len, Taken(info, b[i], b, i + 2))
  }

  /* ---- when the walk comes to an end ---- */

  /** Where the loop stands after m turns, with all headers readable: one turn advances it by the length byte, and it
      turns no more once past the end. */
  function StartOf(b: seq<byte>, len: nat, m: nat): nat
    requires len < |b|
  {
    if m == 0 then 0
    else
      var i := StartOf(b, len, m - 1);
      if i < len then i + b[i + 1] else i
  }

  /** No record that the walk comes to has length 0. */
  ghost predicate NoZeroLength(b: seq<byte>, len: nat)
    requires len < |b|
  {
    forall m: nat | StartOf(b, len, m) < len :: b[StartOf(b, len, m) + 1] != 0
  }

  lemma {:induction false} StartGrows(b: seq<byte>, len: nat, m: nat)
    requires len < |b| && NoZeroLength(b, len)
    ensures StartOf(b, len, m) >= if m < len then m else len
  {
    if m > 0 {
      StartGrows(b, len, m - 1);
      assert StartOf(b, len, m - 1) < len ==> b[StartOf(b, len, m - 1) + 1] != 0;
    }
  }

  lemma {:induction false} StuckAt(b: seq<byte>, len: nat, m: nat, k: nat)
    requires len < |b| && StartOf(b, len, m) < len && b[StartOf(b, len, m) + 1] == 0
    ensures StartOf(b, len, k) < len
    decreases k
  {
    if k > m {
      StuckBehind(b, len, m, k);
    } else {
      StartsMonotone(b, len, k, m);
    }
  }

  lemma {:induction false} StuckBehind(b: seq<byte>, len: nat, m: nat, k: nat)
    requires len < |b| && StartOf(b, len, m) < len && b[StartOf(b, len, m) + 1] == 0 && m <= k
    ensures StartOf(b, len, k) == StartOf(b, len, m)
    decreases k
  {
    if m < k {
      StuckBehind(b, len, m, k - 1);
    }
  }

  lemma {:induction false} StartsMonotone(b: seq<byte>, len: nat, k: nat, m: nat)
    requires len < |b| && k <= m
    ensures StartOf(b, len, k) <= StartOf(b, len, m)
    decreases m
  {
    if k < m {
      StartsMonotone(b, len, k, m - 1);
    }
  }

  /** The loop ends, after at most `len` turns, if and only if no record that it comes to has length 0: at such a record
      it stays for ever. */
  lemma WalkEndsIff(b: seq<byte>, len: nat)
    requires len < |b|
    ensures NoZeroLength(b, len) <==> exists m: nat :: StartOf(b, len, m) >= len
    ensures NoZeroLength(b, len) ==> StartOf(b, len, len) >= len
  {
    if NoZeroLength(b, len) {
      StartGrows(b, len, len);
    } else {
      var m: nat :| StartOf(b, len, m) < len && b[StartOf(b, len, m) + 1] == 0;
      forall k: nat ensures StartOf(b, len, k) < len {
        StuckAt(b, len, m, k);
      }
    }
  }

  /** The offsets at the start of the turns from the m-th on, up to the end. */
  ghost predicate AreTurns(b: seq<byte>, len: nat, m: nat, starts: seq<nat>)
    requires len < |b|
  {
    && (forall t: nat | t < |starts| :: starts[t] == StartOf(b, len, m + t) < len)
    && StartOf(b, len, m + |starts|) >= len
  }

  lemma OneMoreTurn(b: seq<byte>, len: nat, m: nat, rest: seq<nat>)
    requires len < |b| && StartOf(b, len, m) < len && AreTurns(b, len, m + 1, rest)
    ensures AreTurns(b, len, m, [StartOf(b, len, m)] + rest)
  {
    hide StartOf;
    var all := [StartOf(b, len, m)] + rest;
    forall t: nat | t < |all| ensures all[t] == StartOf(b, len, m + t) < len {
      assert t > 0 ==> rest[t - 1] == StartOf(b, len, m + 1 + (t - 1));
    }
    assert StartOf(b, len, m + 1 + |rest|) >= len;
  }

  /** The turns of the loop on a table that can be walked are its record starts. */
  lemma {:induction false} WalkableTurns(b: seq<byte>, len: nat, m: nat, info: Info)
    requires len < |b| && Walkable(b, StartOf(b, len, m), len, info)
    ensures AreTurns(b, len, m, Starts(b, StartOf(b, len, m), len, info))
    decreases len - StartOf(b, len, m)
  {
    hide Taken, Payload, Fits;
    var i := StartOf(b, len, m);
    if i < len {
      var next := Taken(info, b[i], b, i + 2);
      WalkUnfolds(b, i, len, info);
      assert StartOf(b, len, m + 1) == i + b[i + 1];
      hide Walkable, Starts, Walked, StartOf, AreTurns;
      WalkableTurns(b, len, m + 1, next);
      OneMoreTurn(b, len, m, Starts(b, StartOf(b, len, m + 1), len, next));
    }
  }

  /* ---- records as the firmware writes them ---- */

  /** A record of the table; the 64-bit address of type 5 is declared in full. */
  datatype Rec =
    | LapicRec(acpiProcessorID: byte, apicID: byte, lapicFlags: dword)
    | IoApicRec(ioapicID: byte, reserved: byte, ioapicAddr: dword, gsiBase: dword)
    | OverrideRec(busSrc: byte, irqSrc: byte, gsi: dword, irqFlags: word)
    | NmiRec(processor: byte, nmiFlags: word, lint: byte)
    | AddressRec(reserved2: word, address: nat)
    | OtherRec(kind: byte, rest: seq<byte>)

  predicate WellFormed(r: Rec) {
    match r
    case AddressRec(_, address) => address < 0x1_0000_0000_0000_0000
    case OtherRec(kind, rest) => kind !in {0, 1, 2, 4, 5} && |rest| <= 253
    case _ => true
  }

  function TypeOf(r: Rec): byte {
    match r
    case LapicRec(_, _, _) => 0
    case IoApicRec(_, _, _, _) => 1
    case OverrideRec(_, _, _, _) => 2
    case NmiRec(_, _, _) => 4
    case AddressRec(_, _) => 5
    case OtherRec(kind, _) => kind
  }

  function Body(r: Rec): seq<byte> {
    match r
    case LapicRec(p, a, f) => [p, a] + Bytes(f, 4)
    case IoApicRec(id, res, addr, base) => [id, res] + Bytes(addr, 4) + Bytes(base, 4)
    case OverrideRec(bus, irq, gsi, f) => [bus, irq] + Bytes(gsi, 4) + Bytes(f, 2)
    case NmiRec(p, f, lint) => [p] + Bytes(f, 2) + [lint]
    case AddressRec(res, address) => Bytes(res, 2) + Bytes(address, 8)
    case OtherRec(_, rest) => rest
  }

  /** Type, length of the whole record, body. */
  function Encode(r: Rec): (b: seq<byte>)
    requires WellFormed(r)
    ensures |b| == 2 + |Body(r)|
  {
    BodyIsShort(r);
    [TypeOf(r), 2 + |Body(r)|] + Body(r)
  }

  lemma BodyIsShort(r: Rec)
    requires WellFormed(r)
    ensures 2 + |Body(r)| < 256 && Payload(TypeOf(r)) <= |Body(r)|
  {
  }

  function EncodeAll(rs: seq<Rec>): seq<byte>
    requires forall r <- rs :: WellFormed(r)
  {
    if rs == [] then [] else Encode(rs[0]) + EncodeAll(rs[1..])
  }

  /** What the kernel should hold for a list of records: each type's declared fields in table order. */
  function Declared(r: Rec): Info {
    match r
    case LapicRec(p, a, f) => NOTHING.(lapics := [Lapic(p, a, f)])
    case IoApicRec(id, res, addr, base) => NOTHING.(ioapics := [IoApic(id, res, addr, base)])
    case OverrideRec(bus, irq, gsi, f) => NOTHING.(overrides := [IrqOverride(bus, irq, gsi, f)])
    case NmiRec(p, f, lint) => NOTHING.(nmis := [LapicNmi(p, f, lint)])
    case AddressRec(res, address) => NOTHING.(addresses := [LapicOverride(res, address % 256)])
    case OtherRec(_, _) => NOTHING
  }

  function Join(x: Info, y: Info): Info {
    Info(x.lapics + y.lapics, x.ioapics + y.ioapics, x.overrides + y.overrides, x.nmis + y.nmis,
         x.addresses + y.addresses)
  }

  function AllDeclared(rs: seq<Rec>): Info {
    if rs == [] then NOTHING else Join(Declared(rs[0]), AllDeclared(rs[1..]))
  }

  /** Where the records of an encoded list start, when it is laid down at offset i. */
  function Offsets(rs: seq<Rec>, i: nat): seq<nat>
    requires forall r <- rs :: WellFormed(r)
  {
    if rs == [] then [] else [i] + Offsets(rs[1..], i + |Encode(rs[0])|)
  }

  /** Fields are laid out lowest byte first. */
  lemma LittleEndian(w: word, d: dword)
    ensures Bytes(w, 2) == [w % 256, w / 256]
    ensures Bytes(d, 4) == [d % 256, d / 0x100 % 256, d / 0x1_0000 % 256, d / 0x100_0000]
  {
    assert Bytes(w, 2) == [w % 256] + ([w / 256 % 256] + Bytes(w / 256 / 256, 0));
    FourDigits(d);
    assert Bytes(d, 4) == [d % 256] + Bytes(d / 256, 3);
    assert Bytes(d / 256, 3) == [d / 256 % 256] + Bytes(d / 256 / 256, 2);
    assert Bytes(d / 256 / 256, 2) == [d / 256 / 256 % 256] + Bytes(d / 256 / 256 / 256, 1);
    assert Bytes(d / 256 / 256 / 256, 1) == [d / 256 / 256 / 256 % 256] + Bytes(d / 256 / 256 / 256 / 256, 0);
  }

  lemma FourDigits(d: dword)
    ensures d / 256 / 256 == d / 0x1_0000 && d / 256 / 256 / 256 == d / 0x100_0000 && d / 0x100_0000 < 256
  {
  }

  /** A record of each type the kernel reads, byte for byte: type, length, fields. */
  lemma RecordsByteForByte()
    ensures Encode(LapicRec(1, 2, 3)) == [0, 8, 1, 2, 3, 0, 0, 0]
    ensures Encode(IoApicRec(1, 0, 4, 5)) == [1, 12, 1, 0, 4, 0, 0, 0, 5, 0, 0, 0]
    ensures Encode(OverrideRec(0, 9, 2, 13)) == [2, 10, 0, 9, 2, 0, 0, 0, 13, 0]
    ensures Encode(NmiRec(255, 5, 1)) == [4, 6, 255, 5, 0, 1]
    ensures Encode(AddressRec(0, 7)) == [5, 12, 0, 0, 7, 0, 0, 0, 0, 0, 0, 0]
  {
    hide Encode;
    LapicBytes();
    IoApicBytes();
    OverrideBytes();
    NmiBytes();
    AddressBytes();
  }

  lemma LapicBytes()
    ensures Encode(LapicRec(1, 2, 3)) == [0, 8, 1, 2, 3, 0, 0, 0]
  {
    hide Bytes;
    LittleEndian(0, 3);
  }

  lemma IoApicBytes()
    ensures Encode(IoApicRec(1, 0, 4, 5)) == [1, 12, 1, 0, 4, 0, 0, 0, 5, 0, 0, 0]
  {
    hide Bytes;
    LittleEndian(0, 4);
    LittleEndian(0, 5);
  }

  lemma OverrideBytes()
    ensures Encode(OverrideRec(0, 9, 2, 13)) == [2, 10, 0, 9, 2, 0, 0, 0, 13, 0]
  {
    hide Bytes;
    LittleEndian(13, 2);
  }

  lemma NmiBytes()
    ensures Encode(NmiRec(255, 5, 1)) == [4, 6, 255, 5, 0, 1]
  {
    hide Bytes;
    LittleEndian(5, 0);
  }

  lemma AddressBytes()
    ensures Encode(AddressRec(0, 7)) == [5, 12, 0, 0, 7, 0, 0, 0, 0, 0, 0, 0]
  {
    hide Bytes;
    LittleEndian(0, 0);
    EightBytes();
  }

  lemma EightBytes()
    ensures Bytes(7, 8) == [7, 0, 0, 0, 0, 0, 0, 0]
  {
    LittleEndian(0, 0);
    assert Bytes(7, 8) == [7] + ([0] + ([0] + ([0] + Bytes(0, 4))));
  }

  /** There is room for fifty records of each type. */
  lemma RoomForFifty(info: Info)
    ensures Fits(info)
            <==> |info.lapics| <= 50 && |info.ioapics| <= 50 && |info.overrides| <= 50 && |info.nmis| <= 50
                 && |info.addresses| <= 50
  {
  }

  /** What is kept of a record, field by field. */
  lemma DeclaredFields(r: Rec)
    ensures r.LapicRec? ==>
              Declared(r) == NOTHING.(lapics := [Lapic(acpiProcessorID := r.acpiProcessorID, apicID := r.apicID,
                                                       flags := r.lapicFlags)])
    ensures r.IoApicRec? ==>
              Declared(r) == NOTHING.(ioapics := [IoApic(ioapicID := r.ioapicID, reserved := r.reserved,
                                                         ioapicAddr := r.ioapicAddr, gsiBase := r.gsiBase)])
    ensures r.OverrideRec? ==>
              Declared(r) == NOTHING.(overrides := [IrqOverride(busSrc := r.busSrc, irqSrc := r.irqSrc, gsi := r.gsi,
                                                                flags := r.irqFlags)])
    ensures r.NmiRec? ==>
              Declared(r) == NOTHING.(nmis := [LapicNmi(acpiProcessorID := r.processor, flags := r.nmiFlags,
                                                        lint := r.lint)])
    ensures r.OtherRec? ==> Declared(r) == NOTHING
  {
  }

  lemma {:induction false} DeclaredJoins(a: seq<Rec>, b: seq<Rec>)
    ensures AllDeclared(a + b) == Join(AllDeclared(a), AllDeclared(b))
  {
    hide Declared, Join;
    if a == [] {
      assert a + b == b;
      JoinAssociates(AllDeclared(b), NOTHING, NOTHING);
    } else {
      assert (a + b)[0] == a[0] && (a + b)[1..] == a[1..] + b;
      DeclaredJoins(a[1..], b);
      JoinAssociates(Declared(a[0]), AllDeclared(a[1..]), AllDeclared(b));
    }
  }

  /** Each list is in table order: what a table declares is what its first part declares, then its second. */
  lemma DeclaredInOrder(a: seq<Rec>, b: seq<Rec>)
    ensures var x, y, all := AllDeclared(a), AllDeclared(b), AllDeclared(a + b);
            && all.lapics == x.lapics + y.lapics && all.ioapics == x.ioapics + y.ioapics
            && all.overrides == x.overrides + y.overrides && all.nmis == x.nmis + y.nmis
            && all.addresses == x.addresses + y.addresses
  {
    DeclaredJoins(a, b);
    hide AllDeclared;
  }

  /* ---- decoding undoes encoding ---- */

  lemma Le2OfBytes(x: word)
    ensures Le2(Bytes(x, 2), 0) == x
  {
    assert Bytes(x, 2) == [x % 256] + ([x / 256 % 256] + Bytes(x / 256 / 256, 0));
  }

  lemma Le4OfBytes(x: dword)
    ensures Le4(Bytes(x, 4), 0) == x
  {
    var b := Bytes(x, 4);
    assert b[0] == x % 256 && b[1..] == Bytes(x / 256, 3);
    assert b[1] == b[1..][0] == x / 256 % 256 && b[1..][1..] == Bytes(x / 256 / 256, 2);
    assert b[2] == b[1..][1..][0] == x / 256 / 256 % 256 && b[1..][1..][1..] == Bytes(x / 256 / 256 / 256, 1);
    assert b[3] == b[1..][1..][1..][0];
  }

  lemma Le4At(b: seq<byte>, at: nat, x: dword)
    requires at + 4 <= |b| && b[at..at + 4] == Bytes(x, 4)
    ensures Le4(b, at) == x
  {
    Le4OfBytes(x);
    assert Le4(b, at) == Le4(b[at..at + 4], 0);
  }

  lemma Le2At(b: seq<byte>, at: nat, x: word)
    requires at + 2 <= |b| && b[at..at + 2] == Bytes(x, 2)
    ensures Le2(b, at) == x
  {
    Le2OfBytes(x);
    assert Le2(b, at) == Le2(b[at..at + 2], 0);
  }

  /** Reading a body back where it was laid down gives the declared fields. */
  lemma TakenIsDeclared(info: Info, r: Rec, b: seq<byte>, i: nat)
    requires WellFormed(r) && i + |Body(r)| <= |b| && b[i..i + |Body(r)|] == Body(r)
    ensures Payload(TypeOf(r)) <= |Body(r)| && Taken(info, TypeOf(r), b, i) == Join(info, Declared(r))
  {
    var body := Body(r);
    forall k | 0 <= k < |body| ensures b[i + k] == body[k] {
      assert b[i..i + |body|][k] == body[k];
    }
    match r
    case LapicRec(p, a, f) =>
      assert b[i + 2..i + 6] == body[2..] == Bytes(f, 4);
      Le4At(b, i + 2, f);
    case IoApicRec(id, res, addr, base) =>
      assert b[i + 2..i + 6] == body[2..6] == Bytes(addr, 4);
      assert b[i + 6..i + 10] == body[6..] == Bytes(base, 4);
      Le4At(b, i + 2, addr);
      Le4At(b, i + 6, base);
    case OverrideRec(bus, irq, gsi, f) =>
      assert b[i + 2..i + 6] == body[2..6] == Bytes(gsi, 4);
      assert b[i + 6..i + 8] == body[6..] == Bytes(f, 2);
      Le4At(b, i + 2, gsi);
      Le2At(b, i + 6, f);
    case NmiRec(p, f, lint) =>
      assert b[i + 1..i + 3] == body[1..3] == Bytes(f, 2);
      Le2At(b, i + 1, f);
    case AddressRec(res, address) =>
      assert b[i..i + 2] == body[..2] == Bytes(res, 2);
      Le2At(b, i, res);
      assert body[2] == Bytes(address, 8)[0];
    case OtherRec(_, _) =>
  }

  lemma JoinAssociates(x: Info, y: Info, z: Info)
    ensures Join(Join(x, y), z) == Join(x, Join(y, z)) && Join(x, NOTHING) == x && Join(NOTHING, x) == x
    ensures Fits(Join(x, y)) ==> Fits(x)
  {
  }

  /** The walk of an encoded list visits exactly the record starts and collects exactly the declared fields. */
  lemma {:induction false} WalkUndoesEncoding(rs: seq<Rec>, b: seq<byte>, i: nat, len: nat, info: Info)
    requires (forall r <- rs :: WellFormed(r)) && i <= len <= |b| && b[i..len] == EncodeAll(rs)
    requires Fits(Join(info, AllDeclared(rs)))
    ensures Walkable(b, i, len, info)
    ensures Walked(b, i, len, info) == Join(info, AllDeclared(rs))
    ensures Starts(b, i, len, info) == Offsets(rs, i)
    decreases |rs|
  {
    hide Body, TypeOf, Declared, Join, WellFormed, AllDeclared, EncodeAll, Encode, Offsets, Fits, Taken, Payload;
    hide Walkable, Walked, Starts;
    if rs == [] {
      EmptyWalk(b, i, len, info);
    } else {
      var r := rs[0];
      ListUnfolds(rs, i);
      RecordLaidDown(rs, b, i, len);
      TakenIsDeclared(info, r, b, i + 2);
      JoinAssociates(info, AllDeclared(rs), NOTHING);
      JoinAssociates(info, Declared(r), AllDeclared(rs[1..]));
      WalkUndoesEncoding(rs[1..], b, i + 2 + |Body(r)|, len, Join(info, Declared(r)));
      WalkFolds(b, i, len, info);
    }
  }

  lemma EmptyWalk(b: seq<byte>, i: nat, len: nat, info: Info)
    requires i <= len <= |b| && b[i..len] == EncodeAll([]) && Fits(Join(info, AllDeclared([])))
    ensures Walkable(b, i, len, info) && Walked(b, i, len, info) == Join(info, AllDeclared([]))
    ensures Starts(b, i, len, info) == Offsets([], i)
  {
    JoinAssociates(info, NOTHING, NOTHING);
    assert |b[i..len]| == 0;
  }

  lemma ListUnfolds(rs: seq<Rec>, i: nat)
    requires rs != [] && forall r <- rs :: WellFormed(r)
    ensures forall r <- rs[1..] :: WellFormed(r)
    ensures AllDeclared(rs) == Join(Declared(rs[0]), AllDeclared(rs[1..]))
    ensures Offsets(rs, i) == [i] + Offsets(rs[1..], i + 2 + |Body(rs[0])|)
  {
  }

  /** One record back: a record that can be read, followed by a walk, is a walk. */
  lemma WalkFolds(b: seq<byte>, i: nat, len: nat, info: Info)
    requires i < len <= |b| && Fits(info) && i + 2 <= |b| && i + 2 + Payload(b[i]) <= |b| && b[i + 1] != 0
    requires Walkable(b, i + b[i + 1], len, Taken(info, b[i], b, i + 2))
    ensures Walkable(b, i, len, info)
    ensures var next := Taken(info, b[i], b, i + 2);
            && Walked(b, i, len, info) == Walked(b, i + b[i + 1], len, next)
            && Starts(b, i, len, info) == [i] + Starts(b, i + b[i + 1], len, next)
  {
  }

  lemma RecordLaidDown(rs: seq<Rec>, b: seq<byte>, i: nat, len: nat)
    requires rs != [] && (forall r <- rs :: WellFormed(r)) && i <= len <= |b| && b[i..len] == EncodeAll(rs)
    ensures var n := |Body(rs[0])|;
            && i + 2 + n <= len && b[i] == TypeOf(rs[0]) && b[i + 1] == 2 + n
            && b[i + 2..i + 2 + n] == Body(rs[0]) && b[i + 2 + n..len] == EncodeAll(rs[1..])
  {
    hide Body, TypeOf, WellFormed, Payload;
    BodyIsShort(rs[0]);
    var body := Body(rs[0]);
    assert EncodeAll(rs) == [TypeOf(rs[0]), 2 + |body|] + body + EncodeAll(rs[1..]);
    hide EncodeAll, Encode;
    SplitUp(b, i, len, [TypeOf(rs[0]), 2 + |body|], body, EncodeAll(rs[1..]));
  }

  lemma SliceOfSlice(b: seq<byte>, i: nat, len: nat, lo: nat, hi: nat)
    requires i <= len <= |b| && lo <= hi <= len - i
    ensures b[i..len][lo..hi] == b[i + lo..i + hi]
  {
    var whole, part := b[i..len], b[i + lo..i + hi];
    forall k | 0 <= k < hi - lo ensures whole[lo..hi][k] == part[k] {
      assert whole[lo + k] == b[i + (lo + k)];
    }
  }

  lemma SplitUp(b: seq<byte>, i: nat, len: nat, head: seq<byte>, body: seq<byte>, rest: seq<byte>)
    requires i <= len <= |b| && b[i..len] == head + body + rest && |head| == 2
    ensures i + 2 + |body| <= len && b[i] == head[0] && b[i + 1] == head[1]
    ensures b[i + 2..i + 2 + |body|] == body && b[i + 2 + |body|..len] == rest
  {
    var all := head + body + rest;
    assert |b[i..len]| == len - i;
    assert b[i] == b[i..len][0] && b[i + 1] == b[i..len][1];
    SliceOfSlice(b, i, len, 2, 2 + |body|);
    SliceOfSlice(b, i, len, 2 + |body|, len - i);
    assert all[2..2 + |body|] == body && all[2 + |body|..] == rest;
  }

  /** One record on: what the two functions of the walk say about the record at i. */
  lemma WalkUnfolds(b: seq<byte>, i: nat, len: nat, info: Info)
    requires i < len <= |b| && Walkable(b, i, len, info)
    ensures Fits(info) && i + 2 <= |b| && i + 2 + Payload(b[i]) <= |b| && b[i + 1] != 0
    ensures var next := Taken(info, b[i], b, i + 2);
            && Fits(next) && Walkable(b, i + b[i + 1], len, next)
            && Walked(b, i, len, info) == Walked(b, i + b[i + 1], len, next)
            && Starts(b, i, len, info) == [i] + Starts(b, i + b[i + 1], len, next)
  {
  }

  lemma WalkEnds(b: seq<byte>, i: nat, len: nat, info: Info)
    requires len <= |b| && len <= i && Walkable(b, i, len, info)
    ensures Walked(b, i, len, info) == info && Starts(b, i, len, info) == []
  {
  }

  /** The 64-bit addresses declared by type 5 records, in table order. */
  function Addresses(rs: seq<Rec>): seq<nat> {
    if rs == [] then []
    else (if rs[0].AddressRec? then [rs[0].address] else []) + Addresses(rs[1..])
  }

  /** Only one byte of a type 5 address is kept: the address is recovered if and only if it fits one byte. */
  lemma {:induction false} AddressRecoveredIff(rs: seq<Rec>, k: nat)
    requires k < |Addresses(rs)|
    ensures |AllDeclared(rs).addresses| == |Addresses(rs)|
    ensures AllDeclared(rs).addresses[k].lapicOverride == Addresses(rs)[k] <==> Addresses(rs)[k] < 256
  {
    SameCount(rs);
    SameCount(rs[1..]);
    if rs[0].AddressRec? {
      if k > 0 {
        AddressRecoveredIff(rs[1..], k - 1);
      }
    } else {
      AddressRecoveredIff(rs[1..], k);
    }
  }

  lemma SameCount(rs: seq<Rec>)
    ensures |AllDeclared(rs).addresses| == |Addresses(rs)|
  {
  }

  /* ---- the routine itself ---- */

  class MadtInfo {
    var lapicAddr: dword
    var madtEntry0Count: byte
    var madtEntry1Count: byte
    var madtEntry2Count: byte
    var madtEntry4Count: byte
    var madtEntry5Count: byte
    const madtEntry0: array<Lapic>
    const madtEntry1: array<IoApic>
    const madtEntry2: array<IrqOverride>
    const madtEntry4: array<LapicNmi>
    const madtEntry5: array<LapicOverride>

    ghost predicate Valid()
      reads this
    {
      && madtEntry0.Length == madtEntry1.Length == madtEntry2.Length == madtEntry4.Length == madtEntry5.Length == ROOM
      && madtEntry0Count <= ROOM && madtEntry1Count <= ROOM && madtEntry2Count <= ROOM && madtEntry4Count <= ROOM
      && madtEntry5Count <= ROOM
      && (madtEntry0 as object) != madtEntry1 && (madtEntry0 as object) != madtEntry2
      && (madtEntry0 as object) != madtEntry4 && (madtEntry0 as object) != madtEntry5
      && (madtEntry1 as object) != madtEntry2 && (madtEntry1 as object) != madtEntry4
      && (madtEntry1 as object) != madtEntry5 && (madtEntry2 as object) != madtEntry4
      && (madtEntry2 as object) != madtEntry5 && (madtEntry4 as object) != madtEntry5
    }

    ghost function Contents(): Info
      requires Valid()
      reads this, madtEntry0, madtEntry1, madtEntry2, madtEntry4, madtEntry5
    {
      Info(madtEntry0[..madtEntry0Count], madtEntry1[..madtEntry1Count], madtEntry2[..madtEntry2Count],
           madtEntry4[..madtEntry4Count], madtEntry5[..madtEntry5Count])
    }

    constructor ()
      ensures Valid() && Contents() == NOTHING
      ensures fresh(madtEntry0) && fresh(madtEntry1) && fresh(madtEntry2) && fresh(madtEntry4) && fresh(madtEntry5)
    {
      madtEntry0 := new Lapic[ROOM];
      madtEntry1 := new IoApic[ROOM];
      madtEntry2 := new IrqOverride[ROOM];
      madtEntry4 := new LapicNmi[ROOM];
      madtEntry5 := new LapicOverride[ROOM];
      lapicAddr, madtEntry0Count, madtEntry1Count, madtEntry2Count := 0, 0, 0, 0;
      madtEntry4Count, madtEntry5Count := 0, 0;
    }

    /** The switch in the loop: the payload at offset i goes to the end of its type's list. */
    method TakeEntry(entryType: byte, entries: seq<byte>, i: nat)
      requires Valid() && i + Payload(entryType) <= |entries| && Fits(Taken(Contents(), entryType, entries, i))
      modifies this, madtEntry0, madtEntry1, madtEntry2, madtEntry4, madtEntry5
      ensures Valid() && lapicAddr == old(lapicAddr)
      ensures Contents() == Taken(old(Contents()), entryType, entries, i)
    {
      hide Le2, Le4;
      match entryType {
        case 0 =>
          madtEntry0[madtEntry0Count] := Lapic(entries[i], entries[i + 1], Le4(entries, i + 2));
          madtEntry0Count := madtEntry0Count + 1;
          assert madtEntry0[..madtEntry0Count]
              == old(madtEntry0[..madtEntry0Count]) + [madtEntry0[madtEntry0Count - 1]];
        case 1 =>
          madtEntry1[madtEntry1Count] := IoApic(entries[i], entries[i + 1], Le4(entries, i + 2), Le4(entries, i + 6));
          madtEntry1Count := madtEntry1Count + 1;
          assert madtEntry1[..madtEntry1Count]
              == old(madtEntry1[..madtEntry1Count]) + [madtEntry1[madtEntry1Count - 1]];
        case 2 =>
          madtEntry2[madtEntry2Count] :=
            IrqOverride(entries[i], entries[i + 1], Le4(entries, i + 2), Le2(entries, i + 6));
          madtEntry2Count := madtEntry2Count + 1;
          assert madtEntry2[..madtEntry2Count]
              == old(madtEntry2[..madtEntry2Count]) + [madtEntry2[madtEntry2Count - 1]];
        case 4 =>
          madtEntry4[madtEntry4Count] := LapicNmi(entries[i], Le2(entries, i + 1), entries[i + 3]);
          madtEntry4Count := madtEntry4Count + 1;
          assert madtEntry4[..madtEntry4Count]
              == old(madtEntry4[..madtEntry4Count]) + [madtEntry4[madtEntry4Count - 1]];
        case 5 =>
          madtEntry5[madtEntry5Count] := LapicOverride(Le2(entries, i), entries[i + 2]);
          madtEntry5Count := madtEntry5Count + 1;
          assert madtEntry5[..madtEntry5Count]
              == old(madtEntry5[..madtEntry5Count]) + [madtEntry5[madtEntry5Count - 1]];
        case _ =>
      }
    }

    /** entries: the readable bytes from the first record on; length: the length field of the table's header. */
    method MadtInit(address: dword, entries: seq<byte>, length: nat) returns (ghost visited: seq<nat>)
      requires Valid() && Contents() == NOTHING
      requires 44 <= length <= 44 + |entries| && Walkable(entries, 0, length - 44, NOTHING)
      modifies this, madtEntry0, madtEntry1, madtEntry2, madtEntry4, madtEntry5
      ensures Valid() && lapicAddr == address
      ensures Contents() == Walked(entries, 0, length - 44, NOTHING)
      ensures visited == Starts(entries, 0, length - 44, NOTHING)
    {
      hide Walkable, Walked, Starts, Le2, Le4;
      lapicAddr := address;
      visited := [];
      var i := 0;
      while i < length - (36 + 4 + 4)
        invariant i >= 0 && Valid() && lapicAddr == address
        invariant Walkable(entries, i, length - 44, Contents())
        invariant Walked(entries, i, length - 44, Contents()) == Walked(entries, 0, length - 44, NOTHING)
        invariant visited + Starts(entries, i, length - 44, Contents()) == Starts(entries, 0, length - 44, NOTHING)
        decreases length - i
      {
        visited := visited + [i];
        WalkUnfolds(entries, i, length - 44, Contents());
        var entryType := entries[i];
        i := i + 1;
        var entrySize := entries[i];
        i := i + 1;
        TakeEntry(entryType, entries, i);
        i := i + entrySize - 3;
        i := i + 1;
      }
      WalkEnds(entries, i, length - 44, Contents());
    }
  }
}
