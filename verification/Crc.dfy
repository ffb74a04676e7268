/** The CRC-32 of the add-on's archive (xtask/src/nvda.rs): the check value of
    section 8 of RFC 1952 and of section 4.4.7 of PKWARE's APPNOTE. */
module Crc {
  import opened Registers

  const POLYNOMIAL: bv32 := 0xEDB8_8320

  /** One shift of the register. */
  function Step(c: bv32): bv32 {
    if c & 1 == 1 then (c >> 1) ^ POLYNOMIAL else c >> 1
  }

  function Xor(a: bv32, b: bv32): bv32 {
    a ^ b
  }

  function Bit(b: bool): bv32 {
    if b then 1 else 0
  }

  function Double(c: bv32): bv32 {
    c << 1
  }

  predicate Halvable(c: bv32) {
    c & 0x8000_0000 == 0
  }

  /** The lowest bits of a word, the least significant first. */
  function BitsFrom(c: bv32, n: nat): (bits: seq<bool>)
    ensures |bits| == n
    decreases n
  {
    if n == 0 then [] else [c & 1 == 1] + BitsFrom(c >> 1, n - 1)
  }

  function BitsOf(b: bv8): seq<bool> {
    BitsFrom(b as bv32, 8)
  }

  function Widen(b: bv8): bv32 {
    b as bv32
  }

  function Low(c: bv32): bv8 {
    (c & 0xFF) as bv8
  }

  function High(c: bv32): bv32 {
    c & 0xFFFF_FF00
  }

  function Drop(c: bv32): bv32 {
    c >> 8
  }

  const CRC_32: Register<bv32, bv8> :=
    Register(Step, Xor, 0, Bit, Double, Halvable, BitsOf, Widen, Low, High, Drop)

  function Checksum(data: seq<bv8>): bv32 {
    !Fed(CRC_32, 0xFFFF_FFFF, data)
  }

  lemma ByteFed(data: seq<bv8>, k: nat, crc: bv32)
    requires k < |data| && crc == Fed(CRC_32, 0xFFFF_FFFF, data[..k])
    ensures Fed(CRC_32, 0xFFFF_FFFF, data[..k + 1]) == Steps(CRC_32, crc ^ (data[k] as bv32), 8)
  {
    FedSnoc(CRC_32, 0xFFFF_FFFF, data, k);
    assert CRC_32.xor(crc, CRC_32.widen(data[k])) == crc ^ (data[k] as bv32);
  }

  method Crc32(data: seq<bv8>) returns (crc: bv32)
    ensures crc == Checksum(data)
  {
    crc := 0xFFFF_FFFF;
    for k := 0 to |data|
      invariant crc == Fed(CRC_32, 0xFFFF_FFFF, data[..k])
    {
      ByteFed(data, k, crc);
      crc := EightSteps(crc ^ (data[k] as bv32));
    }
    assert data[..|data|] == data;
    crc := !crc;
  }

  method EightSteps(start: bv32) returns (crc: bv32)
    ensures crc == Steps(CRC_32, start, 8)
  {
    crc := start;
    for i := 0 to 8
      invariant crc == Steps(CRC_32, start, i)
    {
      StepsSnoc(CRC_32, start, i);
      crc := if crc & 1 == 1 then (crc >> 1) ^ 0xEDB8_8320 else crc >> 1;
    }
  }

  // ---- One step ----

  lemma OddStep(c: bv32)
    requires c & 1 == 1
    ensures Step(c) == (c >> 1) ^ POLYNOMIAL
  {
  }

  lemma EvenStep(c: bv32)
    requires c & 1 == 0
    ensures Step(c) == c >> 1
  {
  }

  lemma Parity(c: bv32, d: bv32)
    ensures (c ^ d) & 1 == (c & 1) ^ (d & 1) && (c & 1 == 0 || c & 1 == 1)
    ensures c ^ d == d ^ c
  {
  }

  lemma OddWithOdd(c: bv32, d: bv32)
    requires c & 1 == 1 && d & 1 == 1
    ensures LinearAt(CRC_32, c, d)
  {
    assert (c ^ d) & 1 == 0 && (c ^ d) >> 1 == ((c >> 1) ^ POLYNOMIAL) ^ ((d >> 1) ^ POLYNOMIAL);
  }

  lemma OddShift(c: bv32, d: bv32)
    ensures ((c ^ d) >> 1) ^ POLYNOMIAL == ((c >> 1) ^ POLYNOMIAL) ^ (d >> 1)
    ensures ((d ^ c) >> 1) ^ POLYNOMIAL == (d >> 1) ^ ((c >> 1) ^ POLYNOMIAL)
  {
  }

  lemma OddWithEven(c: bv32, d: bv32)
    requires c & 1 == 1 && d & 1 == 0
    ensures LinearAt(CRC_32, c, d)
  {
    Parity(c, d);
    OddStep(c ^ d);
    OddStep(c);
    EvenStep(d);
    OddShift(c, d);
  }

  lemma EvenWithOdd(c: bv32, d: bv32)
    requires c & 1 == 0 && d & 1 == 1
    ensures LinearAt(CRC_32, c, d)
  {
    Parity(c, d);
    OddStep(c ^ d);
    EvenStep(c);
    OddStep(d);
    OddShift(d, c);
  }

  lemma EvenWithEven(c: bv32, d: bv32)
    requires c & 1 == 0 && d & 1 == 0
    ensures LinearAt(CRC_32, c, d)
  {
    assert (c ^ d) & 1 == 0 && (c ^ d) >> 1 == (c >> 1) ^ (d >> 1);
  }

  lemma StepLinear(c: bv32, d: bv32)
    ensures LinearAt(CRC_32, c, d)
  {
    Parity(c, d);
    Parity(d, c);
    if c & 1 == 1 {
      if d & 1 == 1 { OddWithOdd(c, d); } else { OddWithEven(c, d); }
    } else {
      if d & 1 == 1 { EvenWithOdd(c, d); } else { EvenWithEven(c, d); }
    }
  }

  /** The polynomial's top bit is set, so the bit shifted out still shows. */
  lemma StepInjective(c: bv32, d: bv32)
    ensures Step(c) == Step(d) ==> c == d
  {
  }

  // ---- Words ----

  /** The lowest bits set. */
  function Mask(n: nat): bv32 {
    if n == 0 then 0 else (Mask(n - 1) << 1) | 1
  }

  predicate Fits(c: bv32, mask: bv32) {
    c & !mask == 0
  }

  lemma MaskGrows(m: bv32, n: bv32)
    requires Fits(m, n)
    ensures Fits((m << 1) | 1, (n << 1) | 1)
  {
  }

  lemma {:induction false} MaskNext(n: nat)
    ensures Fits(Mask(n), Mask(n + 1))
  {
    if n > 0 {
      MaskNext(n - 1);
      MaskGrows(Mask(n - 1), Mask(n));
    }
  }

  lemma FitsTransitive(a: bv32, b: bv32, c: bv32)
    requires Fits(a, b) && Fits(b, c)
    ensures Fits(a, c)
  {
  }

  lemma MaskValues()
    ensures Mask(31) == 0x7FFF_FFFF
  {
    assert Mask(8) == 0xFF;
    assert Mask(16) == 0xFFFF;
    assert Mask(24) == 0xFF_FFFF;
  }

  lemma {:induction false} MaskBelow(n: nat)
    requires n <= 31
    ensures Fits(Mask(n), 0x7FFF_FFFF)
    decreases 31 - n
  {
    if n == 31 {
      MaskValues();
    } else {
      MaskNext(n);
      MaskBelow(n + 1);
      FitsTransitive(Mask(n), Mask(n + 1), 0x7FFF_FFFF);
    }
  }

  lemma TopBit(c: bv32)
    requires Fits(c, 0x7FFF_FFFF)
    ensures Halvable(c)
  {
  }

  lemma OneMore(x: bool, c: bv32, m: bv32)
    requires Fits(c, m)
    ensures Fits(Xor(Bit(x), Double(c)), (m << 1) | 1)
  {
    if x {
      assert (1 ^ (c << 1)) & !((m << 1) | 1) == 0;
    } else {
      assert (0 ^ (c << 1)) & !((m << 1) | 1) == 0;
    }
  }

  lemma WordCons(bits: seq<bool>)
    requires bits != []
    ensures Word(CRC_32, bits) == Xor(Bit(bits[0]), Double(Word(CRC_32, bits[1..])))
  {
  }

  lemma {:induction false} WordFits(bits: seq<bool>)
    ensures Fits(Word(CRC_32, bits), Mask(|bits|))
  {
    if bits != [] {
      WordFits(bits[1..]);
      WordCons(bits);
      OneMore(bits[0], Word(CRC_32, bits[1..]), Mask(|bits| - 1));
    }
  }

  lemma WordHalvable(bits: seq<bool>)
    requires |bits| <= 31
    ensures Halvable(Word(CRC_32, bits))
  {
    WordFits(bits);
    MaskBelow(|bits|);
    FitsTransitive(Word(CRC_32, bits), Mask(|bits|), 0x7FFF_FFFF);
    TopBit(Word(CRC_32, bits));
  }

  lemma Halved(x: bool, c: bv32)
    requires Halvable(c)
    ensures Xor(Bit(x), Double(c)) >> 1 == c
  {
  }

  lemma Lowest(x: bool, c: bv32)
    ensures Xor(Bit(x), Double(c)) & 1 == Bit(x)
  {
  }

  lemma DoubledEven(c: bv32)
    requires Halvable(c)
    ensures (c << 1) & 1 == 0 && (c << 1) >> 1 == c
  {
  }

  lemma Doubled(c: bv32)
    requires Halvable(c)
    ensures Step(Double(c)) == c
  {
    DoubledEven(c);
    EvenStep(c << 1);
  }

  lemma Parts(x: bool, c: bv32, y: bool, d: bv32)
    requires Halvable(c) && Halvable(d) && Xor(Bit(x), Double(c)) == Xor(Bit(y), Double(d))
    ensures x == y && c == d
  {
    Halved(x, c);
    Halved(y, d);
    Lowest(x, c);
    Lowest(y, d);
  }

  lemma Rejoined(c: bv32, m: bv32, n: bv32, rest: bv32, whole: bv32)
    requires n == (m << 1) | 1 && Lowers(c >> 1, m, rest) && whole == Xor(Bit(c & 1 == 1), Double(rest))
    ensures Lowers(c, n, whole)
  {
  }

  predicate Lowers(c: bv32, m: bv32, w: bv32) {
    w == c & m
  }

  /** The word of a word's lowest bits. */
  lemma {:induction false} WordOfBits(c: bv32, n: nat)
    ensures Lowers(c, Mask(n), Word(CRC_32, BitsFrom(c, n)))
    decreases n
  {
    if n == 0 {
      assert c & 0 == 0;
      assert BitsFrom(c, 0) == [];
    } else {
      WordOfBits(c >> 1, n - 1);
      WordOfFirst(c, n);
      Rejoined(c, Mask(n - 1), Mask(n), Word(CRC_32, BitsFrom(c >> 1, n - 1)), Word(CRC_32, BitsFrom(c, n)));
    }
  }

  lemma WordOfFirst(c: bv32, n: nat)
    requires n > 0
    ensures Word(CRC_32, BitsFrom(c, n)) == Xor(Bit(c & 1 == 1), Double(Word(CRC_32, BitsFrom(c >> 1, n - 1))))
  {
    var bits := BitsFrom(c, n);
    assert bits[0] == (c & 1 == 1) && bits[1..] == BitsFrom(c >> 1, n - 1);
    WordCons(bits);
  }

  lemma ByteMasked(b: bv8)
    ensures (b as bv32) & 0xFF == b as bv32
  {
  }

  lemma ByteWord(b: bv8)
    ensures Word(CRC_32, BitsOf(b)) == Widen(b)
  {
    WordOfBits(b as bv32, 8);
    assert Mask(8) == 0xFF;
    ByteMasked(b);
  }

  lemma XorAssociative(a: bv32, b: bv32, c: bv32)
    ensures Xor(a, Xor(b, c)) == Xor(Xor(a, b), c)
  {
    assert a ^ (b ^ c) == (a ^ b) ^ c;
  }

  lemma XorCancels(a: bv32, b: bv32, c: bv32)
    ensures Xor(c, a) == Xor(c, b) ==> a == b
  {
  }

  lemma XorCommutes(a: bv32, b: bv32)
    ensures Xor(a, b) == Xor(b, a)
  {
  }

  lemma XorZero(c: bv32)
    ensures Xor(c, 0) == c
  {
  }

  lemma WidenInjective(a: bv8, b: bv8)
    ensures Widen(a) == Widen(b) ==> a == b
  {
  }

  ghost predicate Sums(r: Register<bv32, bv8>) {
    && (forall c :: r.xor(c, r.zero) == c)
    && (forall a, b, c :: AssociativeAt(r, a, b, c))
    && (forall a, b, c :: CancelsAt(r, a, b, c))
  }

  lemma CrcSums()
    ensures Sums(CRC_32)
  {
    var r := CRC_32;
    forall c ensures r.xor(c, r.zero) == c { XorZero(c); }
    forall a, b, c ensures AssociativeAt(r, a, b, c) { XorAssociative(a, b, c); }
    forall a, b, c ensures CancelsAt(r, a, b, c) {
      XorCancels(a, b, c);
      XorCommutes(a, c);
      XorCommutes(b, c);
    }
  }

  lemma CrcSteps()
    ensures forall a, b :: LinearAt(CRC_32, a, b)
    ensures forall a, b :: InjectiveAt(CRC_32, a, b)
    ensures forall a :: HalvesAt(CRC_32, a)
  {
    forall a, b ensures LinearAt(CRC_32, a, b) { StepLinear(a, b); }
    forall a, b ensures InjectiveAt(CRC_32, a, b) { StepInjective(a, b); }
    forall a ensures HalvesAt(CRC_32, a) { if Halvable(a) { Doubled(a); } }
  }

  lemma CrcParts()
    ensures forall x, a, y, b :: PartsAt(CRC_32, x, a, y, b)
  {
    forall x, a, y, b ensures PartsAt(CRC_32, x, a, y, b) {
      if Halvable(a) && Halvable(b) && Xor(Bit(x), Double(a)) == Xor(Bit(y), Double(b)) { Parts(x, a, y, b); }
    }
  }

  lemma CrcWords()
    ensures forall bits :: RoomAt(CRC_32, bits)
    ensures forall b :: ByteAt(CRC_32, b)
    ensures forall a, b :: CRC_32.widen(a) == CRC_32.widen(b) ==> a == b
  {
    forall bits ensures RoomAt(CRC_32, bits) { if |bits| <= 31 { WordHalvable(bits); } }
    forall b ensures ByteAt(CRC_32, b) { ByteWord(b); }
    forall a, b ensures CRC_32.widen(a) == CRC_32.widen(b) ==> a == b { WidenInjective(a, b); }
  }

  /** CRC-32 is a register the theory of bursts speaks about. */
  lemma CrcProper()
    ensures Proper(CRC_32)
  {
    CrcSums();
    CrcSteps();
    CrcParts();
    CrcWords();
  }

  // ---- The table of RFC 1952 ----

  lemma EvenHalves(c: bv32)
    requires c & 1 == 0
    ensures Steps(CRC_32, c, 1) == c >> 1
  {
    EvenStep(c);
    assert Steps(CRC_32, c, 1) == CRC_32.step(c);
  }

  lemma {:induction false} StepsSum(c: bv32, m: nat, n: nat)
    ensures Steps(CRC_32, c, m + n) == Steps(CRC_32, Steps(CRC_32, c, m), n)
    decreases m
  {
    if m > 0 { StepsSum(CRC_32.step(c), m - 1, n); }
  }

  lemma QuarterHigh(d: bv32)
    requires d & 3 == 0
    ensures Steps(CRC_32, d, 2) == d >> 2
  {
    assert d & 1 == 0 && (d >> 1) & 1 == 0 && (d >> 1) >> 1 == d >> 2;
    EvenHalves(d);
    EvenHalves(d >> 1);
    StepsSum(d, 1, 1);
  }

  lemma HalfHigh(d: bv32)
    requires d & 15 == 0
    ensures Steps(CRC_32, d, 4) == d >> 4
  {
    assert d & 3 == 0 && (d >> 2) & 3 == 0 && (d >> 2) >> 2 == d >> 4;
    QuarterHigh(d);
    QuarterHigh(d >> 2);
    StepsSum(d, 2, 2);
  }

  lemma HighHalves(c: bv32)
    ensures High(c) & 15 == 0 && (High(c) >> 4) & 15 == 0 && (High(c) >> 4) >> 4 == Drop(c)
  {
  }

  lemma HighDrops(c: bv32)
    ensures Steps(CRC_32, High(c), 8) == Drop(c)
  {
    var d := High(c);
    HighHalves(c);
    HalfHigh(d);
    HalfHigh(d >> 4);
    StepsSum(d, 4, 4);
  }

  lemma LowAndHigh(c: bv32)
    ensures c == Xor(Widen(Low(c)), High(c))
  {
  }

  lemma DropsByte(c: bv32, b: bv8)
    ensures Drop(Xor(c, Widen(b))) == Drop(c)
  {
  }

  lemma CrcSplits()
    ensures Splits(CRC_32)
  {
    forall c ensures SplitsAt(CRC_32, c) {
      LowAndHigh(c);
      HighDrops(c);
    }
    forall c, b ensures DropsAt(CRC_32, c, b) { DropsByte(c, b); }
  }

  /** The loop over the bits computes the table-driven function of RFC 1952. */
  lemma ChecksumByTable(data: seq<bv8>)
    ensures Checksum(data) == !TableFed(CRC_32, 0xFFFF_FFFF, data)
  {
    CrcProper();
    CrcSplits();
    TableAgrees(CRC_32, 0xFFFF_FFFF, data);
  }

  // ---- What the check value catches ----

  lemma ComplementsDiffer(c: bv32, d: bv32)
    requires c != d
    ensures !c != !d
  {
  }

  lemma BurstFed(a: seq<bv8>, b: seq<bv8>, from: nat)
    requires |a| == |b| && a != b && AgreeOutside(Bits(CRC_32, a), Bits(CRC_32, b), from)
    ensures Fed(CRC_32, 0xFFFF_FFFF, a) != Fed(CRC_32, 0xFFFF_FFFF, b)
  {
    CrcProper();
    BurstShows(CRC_32, 0xFFFF_FFFF, a, b, from);
  }

  /** Inputs of one length whose bits differ only in a burst of 32 have
      different check values. */
  lemma BurstDetected(a: seq<bv8>, b: seq<bv8>, from: nat)
    requires |a| == |b| && a != b && AgreeOutside(Bits(CRC_32, a), Bits(CRC_32, b), from)
    ensures Checksum(a) != Checksum(b)
  {
    BurstFed(a, b, from);
    ComplementsDiffer(Fed(CRC_32, 0xFFFF_FFFF, a), Fed(CRC_32, 0xFFFF_FFFF, b));
  }

  lemma WindowFed(a: seq<bv8>, b: seq<bv8>, from: nat)
    requires a != b && SameOutside(a, b, from)
    ensures Fed(CRC_32, 0xFFFF_FFFF, a) != Fed(CRC_32, 0xFFFF_FFFF, b)
  {
    CrcProper();
    WindowShows(CRC_32, 0xFFFF_FFFF, a, b, from);
  }

  /** Inputs that differ only inside four consecutive bytes do too. */
  lemma WindowDetected(a: seq<bv8>, b: seq<bv8>, from: nat)
    requires a != b && SameOutside(a, b, from)
    ensures Checksum(a) != Checksum(b)
  {
    WindowFed(a, b, from);
    ComplementsDiffer(Fed(CRC_32, 0xFFFF_FFFF, a), Fed(CRC_32, 0xFFFF_FFFF, b));
  }

  // ---- One value ----

  lemma StepsOfEight(c: bv32)
    ensures Steps(CRC_32, c, 8) == Step(Step(Step(Step(Step(Step(Step(Step(c))))))))
  {
    StepsSnoc(CRC_32, c, 7);
    StepsSnoc(CRC_32, c, 6);
    StepsSnoc(CRC_32, c, 5);
    StepsSnoc(CRC_32, c, 4);
    StepsSnoc(CRC_32, c, 3);
    StepsSnoc(CRC_32, c, 2);
    StepsSnoc(CRC_32, c, 1);
    StepsSnoc(CRC_32, c, 0);
  }

  lemma StepsOfA()
    ensures Step(Step(Step(Step(Step(Step(Step(Step(0xFFFF_FF9E)))))))) == 0x1748_41BC
  {
    assert Step(0xFFFF_FF9E) == 0x7FFF_FFCF;
    assert Step(0x7FFF_FFCF) == 0xD247_7CC7;
    assert Step(0xD247_7CC7) == 0x849B_3D43;
    assert Step(0x849B_3D43) == 0xAFF5_1D81;
    assert Step(0xAFF5_1D81) == 0xBA42_0DE0;
    assert Step(0xBA42_0DE0) == 0x5D21_06F0;
    assert Step(0x5D21_06F0) == 0x2E90_8378;
    assert Step(0x2E90_8378) == 0x1748_41BC;
  }

  /** The check value of the letter a. */
  lemma ChecksumOfA()
    ensures Checksum([97]) == 0xE8B7_BE43
  {
    var data: seq<bv8> := [97];
    assert data[..0] == [] && data[..1] == data;
    ByteFed(data, 0, 0xFFFF_FFFF);
    assert (0xFFFF_FFFF as bv32) ^ (97 as bv32) == 0xFFFF_FF9E;
    StepsOfEight(0xFFFF_FF9E);
    StepsOfA();
  }
}
