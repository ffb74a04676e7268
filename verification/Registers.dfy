/** Shift registers that bytes are fed into bit by bit, for any words and any
    feedback: what makes such a register catch every burst of errors. */
module Registers {

  /** A register over words `T` and bytes `B`: one shift of it, exclusive or,
      and how bits and bytes become words. A word splits into its `low` byte
      and its `high` rest; `drop` shifts the low byte out. */
  datatype Register<!T, !B> = Register(
    step: T -> T, xor: (T, T) -> T, zero: T, bit: bool -> T, double: T -> T, halvable: T -> bool,
    bits: B -> seq<bool>, widen: B -> T, low: T -> B, high: T -> T, drop: T -> T)

  function Steps<T, B>(r: Register<T, B>, c: T, n: nat): T
    decreases n
  {
    if n == 0 then c else Steps(r, r.step(c), n - 1)
  }

  /** The register after `data`: each byte is added, then shifted out. */
  function Fed<T, B>(r: Register<T, B>, c: T, data: seq<B>): T
    decreases |data|
  {
    if data == [] then c
    else Steps(r, r.xor(Fed(r, c, data[..|data| - 1]), r.widen(data[|data| - 1])), 8)
  }

  /** The register after single bits. */
  function FedBits<T, B>(r: Register<T, B>, c: T, bits: seq<bool>): T
    decreases |bits|
  {
    if bits == [] then c else FedBits(r, r.step(r.xor(c, r.bit(bits[0]))), bits[1..])
  }

  /** Bits as one word, the first bit the least significant. */
  function Word<T, B>(r: Register<T, B>, bits: seq<bool>): T {
    if bits == [] then r.zero else r.xor(r.bit(bits[0]), r.double(Word(r, bits[1..])))
  }

  function Bits<T, B>(r: Register<T, B>, data: seq<B>): seq<bool> {
    if data == [] then [] else Bits(r, data[..|data| - 1]) + r.bits(data[|data| - 1])
  }

  // ---- Laws ----

  ghost predicate AssociativeAt<T, B>(r: Register<T, B>, a: T, b: T, c: T) {
    r.xor(a, r.xor(b, c)) == r.xor(r.xor(a, b), c)
  }

  ghost predicate CancelsAt<T, B>(r: Register<T, B>, a: T, b: T, c: T) {
    && (r.xor(c, a) == r.xor(c, b) ==> a == b)
    && (r.xor(a, c) == r.xor(b, c) ==> a == b)
  }

  ghost predicate LinearAt<T, B>(r: Register<T, B>, a: T, b: T) {
    r.step(r.xor(a, b)) == r.xor(r.step(a), r.step(b))
  }

  ghost predicate InjectiveAt<T, B>(r: Register<T, B>, a: T, b: T) {
    r.step(a) == r.step(b) ==> a == b
  }

  /** A step undoes doubling, and a word can be told from its parts. */
  ghost predicate HalvesAt<T, B>(r: Register<T, B>, a: T) {
    r.halvable(a) ==> r.step(r.double(a)) == a
  }

  ghost predicate PartsAt<T, B>(r: Register<T, B>, x: bool, a: T, y: bool, b: T) {
    r.halvable(a) && r.halvable(b) && r.xor(r.bit(x), r.double(a)) == r.xor(r.bit(y), r.double(b)) ==> x == y && a == b
  }

  /** A word of up to 31 bits has room for one more. */
  ghost predicate RoomAt<T, B>(r: Register<T, B>, bits: seq<bool>) {
    |bits| <= 31 ==> r.halvable(Word(r, bits))
  }

  ghost predicate ByteAt<T, B>(r: Register<T, B>, b: B) {
    |r.bits(b)| == 8 && Word(r, r.bits(b)) == r.widen(b)
  }

  ghost predicate Proper<T(!new), B(!new)>(r: Register<T, B>) {
    && (forall c :: r.xor(c, r.zero) == c)
    && (forall a, b, c :: AssociativeAt(r, a, b, c))
    && (forall a, b, c :: CancelsAt(r, a, b, c))
    && (forall a, b :: LinearAt(r, a, b))
    && (forall a, b :: InjectiveAt(r, a, b))
    && (forall a :: HalvesAt(r, a))
    && (forall x, a, y, b :: PartsAt(r, x, a, y, b))
    && (forall bits :: RoomAt(r, bits))
    && (forall b :: ByteAt(r, b))
    && (forall a, b :: r.widen(a) == r.widen(b) ==> a == b)
  }

  // ---- Steps ----

  lemma {:induction false} StepsSnoc<T, B>(r: Register<T, B>, c: T, n: nat)
    ensures Steps(r, c, n + 1) == r.step(Steps(r, c, n))
    decreases n
  {
    if n > 0 { StepsSnoc(r, r.step(c), n - 1); }
  }

  lemma {:induction false} StepsLinear<T(!new), B(!new)>(r: Register<T, B>, a: T, b: T, n: nat)
    requires Proper(r)
    ensures Steps(r, r.xor(a, b), n) == r.xor(Steps(r, a, n), Steps(r, b, n))
    decreases n
  {
    if n > 0 {
      assert LinearAt(r, a, b);
      StepsLinear(r, r.step(a), r.step(b), n - 1);
    }
  }

  lemma {:induction false} StepsInjective<T(!new), B(!new)>(r: Register<T, B>, a: T, b: T, n: nat)
    requires Proper(r)
    ensures Steps(r, a, n) == Steps(r, b, n) ==> a == b
    decreases n
  {
    if n > 0 {
      assert InjectiveAt(r, a, b);
      StepsInjective(r, r.step(a), r.step(b), n - 1);
    }
  }

  lemma FedSnoc<T, B>(r: Register<T, B>, c: T, data: seq<B>, k: nat)
    requires k < |data|
    ensures Fed(r, c, data[..k + 1]) == Steps(r, r.xor(Fed(r, c, data[..k]), r.widen(data[k])), 8)
  {
    assert data[..k + 1][..k] == data[..k];
  }

  // ---- Bits and words ----

  lemma {:induction false} WordInjective<T(!new), B(!new)>(r: Register<T, B>, a: seq<bool>, b: seq<bool>)
    requires Proper(r) && |a| == |b| <= 32 && Word(r, a) == Word(r, b)
    ensures a == b
  {
    if a != [] {
      assert RoomAt(r, a[1..]) && RoomAt(r, b[1..]);
      assert PartsAt(r, a[0], Word(r, a[1..]), b[0], Word(r, b[1..]));
      WordInjective(r, a[1..], b[1..]);
      assert a == [a[0]] + a[1..] && b == [b[0]] + b[1..];
    }
  }

  lemma StepTail<T(!new), B(!new)>(r: Register<T, B>, c: T, first: T, rest: T)
    requires Proper(r) && r.halvable(rest)
    ensures r.step(r.xor(c, r.xor(first, r.double(rest)))) == r.xor(r.step(r.xor(c, first)), rest)
  {
    assert AssociativeAt(r, c, first, r.double(rest));
    assert LinearAt(r, r.xor(c, first), r.double(rest));
    assert HalvesAt(r, rest);
  }

  /** Feeding up to 32 bits is adding one word, then as many steps. */
  lemma {:induction false} FedWord<T(!new), B(!new)>(r: Register<T, B>, c: T, bits: seq<bool>)
    requires Proper(r) && |bits| <= 32
    ensures FedBits(r, c, bits) == Steps(r, r.xor(c, Word(r, bits)), |bits|)
    decreases |bits|
  {
    if bits != [] {
      assert RoomAt(r, bits[1..]);
      StepTail(r, c, r.bit(bits[0]), Word(r, bits[1..]));
      FedWord(r, r.step(r.xor(c, r.bit(bits[0]))), bits[1..]);
    }
  }

  lemma {:induction false} FedBitsSum<T, B>(r: Register<T, B>, c: T, a: seq<bool>, b: seq<bool>)
    ensures FedBits(r, c, a + b) == FedBits(r, FedBits(r, c, a), b)
    decreases |a|
  {
    if a == [] {
      assert a + b == b;
    } else {
      assert (a + b)[1..] == a[1..] + b;
      FedBitsSum(r, r.step(r.xor(c, r.bit(a[0]))), a[1..], b);
    }
  }

  /** Feeding bytes is feeding their bits. */
  lemma {:induction false} FedAsBits<T(!new), B(!new)>(r: Register<T, B>, c: T, data: seq<B>)
    requires Proper(r)
    ensures Fed(r, c, data) == FedBits(r, c, Bits(r, data))
    decreases |data|
  {
    if data != [] {
      var before, last := data[..|data| - 1], data[|data| - 1];
      FedAsBits(r, c, before);
      FedBitsSum(r, c, Bits(r, before), r.bits(last));
      assert ByteAt(r, last);
      FedWord(r, Fed(r, c, before), r.bits(last));
    }
  }

  lemma {:induction false} BitsLength<T(!new), B(!new)>(r: Register<T, B>, data: seq<B>)
    requires Proper(r)
    ensures |Bits(r, data)| == 8 * |data|
  {
    if data != [] {
      BitsLength(r, data[..|data| - 1]);
      assert ByteAt(r, data[|data| - 1]);
    }
  }

  lemma {:induction false} BitsInjective<T(!new), B(!new)>(r: Register<T, B>, a: seq<B>, b: seq<B>)
    requires Proper(r) && |a| == |b| && Bits(r, a) == Bits(r, b)
    ensures a == b
  {
    if a != [] {
      var n := |a| - 1;
      BitsLength(r, a[..n]);
      BitsLength(r, b[..n]);
      assert ByteAt(r, a[n]) && ByteAt(r, b[n]);
      assert Bits(r, a)[..8 * n] == Bits(r, a[..n]) && Bits(r, a)[8 * n..] == r.bits(a[n]);
      assert Bits(r, b)[..8 * n] == Bits(r, b[..n]) && Bits(r, b)[8 * n..] == r.bits(b[n]);
      BitsInjective(r, a[..n], b[..n]);
      assert a == a[..n] + [a[n]] && b == b[..n] + [b[n]];
    }
  }

  // ---- Bursts ----

  lemma {:induction false} FedBitsInjective<T(!new), B(!new)>(r: Register<T, B>, c: T, d: T, bits: seq<bool>)
    requires Proper(r)
    ensures FedBits(r, c, bits) == FedBits(r, d, bits) ==> c == d
    decreases |bits|
  {
    if bits != [] {
      var b := r.bit(bits[0]);
      FedBitsInjective(r, r.step(r.xor(c, b)), r.step(r.xor(d, b)), bits[1..]);
      assert InjectiveAt(r, r.xor(c, b), r.xor(d, b));
      assert CancelsAt(r, c, d, b);
    }
  }

  lemma BurstAlone<T(!new), B(!new)>(r: Register<T, B>, c: T, a: seq<bool>, b: seq<bool>)
    requires Proper(r) && |a| == |b| <= 32 && a != b
    ensures FedBits(r, c, a) != FedBits(r, c, b)
  {
    FedWord(r, c, a);
    FedWord(r, c, b);
    StepsInjective(r, r.xor(c, Word(r, a)), r.xor(c, Word(r, b)), |a|);
    assert CancelsAt(r, Word(r, a), Word(r, b), c);
    if Word(r, a) == Word(r, b) { WordInjective(r, a, b); }
  }

  lemma BurstAmongBits<T(!new), B(!new)>(r: Register<T, B>, c: T, before: seq<bool>, a: seq<bool>, b: seq<bool>,
                                         after: seq<bool>)
    requires Proper(r) && |a| == |b| <= 32 && a != b
    ensures FedBits(r, c, before + a + after) != FedBits(r, c, before + b + after)
  {
    var start := FedBits(r, c, before);
    FedBitsSum(r, c, before, a);
    FedBitsSum(r, c, before, b);
    FedBitsSum(r, c, before + a, after);
    FedBitsSum(r, c, before + b, after);
    BurstAlone(r, start, a, b);
    FedBitsInjective(r, FedBits(r, start, a), FedBits(r, start, b), after);
  }

  /** The bits agree everywhere but in 32 consecutive places. */
  ghost predicate AgreeOutside(a: seq<bool>, b: seq<bool>, from: nat) {
    |a| == |b| && forall k :: 0 <= k < |a| && !(from <= k < from + 32) ==> a[k] == b[k]
  }

  lemma BurstSplit(x: seq<bool>, y: seq<bool>, from: nat)
    returns (before: seq<bool>, u: seq<bool>, v: seq<bool>, after: seq<bool>)
    requires AgreeOutside(x, y, from)
    ensures x == before + u + after && y == before + v + after && |u| == |v| <= 32
  {
    var lo := if from < |x| then from else |x|;
    var hi := if lo + 32 < |x| then lo + 32 else |x|;
    before, u, v, after := x[..lo], x[lo..hi], y[lo..hi], x[hi..];
  }

  /** Inputs of one length whose bits differ only in a burst of 32 leave the
      register different. */
  lemma BurstShows<T(!new), B(!new)>(r: Register<T, B>, c: T, a: seq<B>, b: seq<B>, from: nat)
    requires Proper(r) && |a| == |b| && a != b && AgreeOutside(Bits(r, a), Bits(r, b), from)
    ensures Fed(r, c, a) != Fed(r, c, b)
  {
    var x, y := Bits(r, a), Bits(r, b);
    if x == y { BitsInjective(r, a, b); }
    var before, u, v, after := BurstSplit(x, y, from);
    BurstAmongBits(r, c, before, u, v, after);
    FedAsBits(r, c, a);
    FedAsBits(r, c, b);
  }

  lemma {:induction false} BitsAt<T(!new), B(!new)>(r: Register<T, B>, data: seq<B>, k: nat)
    requires Proper(r) && k < 8 * |data|
    ensures k < |Bits(r, data)| && |r.bits(data[k / 8])| == 8
    ensures Bits(r, data)[k] == r.bits(data[k / 8])[k % 8]
  {
    var n := |data| - 1;
    BitsLength(r, data);
    BitsLength(r, data[..n]);
    assert ByteAt(r, data[k / 8]);
    if k < 8 * n {
      BitsAt(r, data[..n], k);
      assert data[..n][k / 8] == data[k / 8];
    }
  }

  ghost predicate SameOutside<B>(a: seq<B>, b: seq<B>, from: nat) {
    |a| == |b| && forall k :: 0 <= k < |a| && !(from <= k < from + 4) ==> a[k] == b[k]
  }

  /** In particular inputs that differ only inside four consecutive bytes. */
  lemma WindowShows<T(!new), B(!new)>(r: Register<T, B>, c: T, a: seq<B>, b: seq<B>, from: nat)
    requires Proper(r) && a != b && SameOutside(a, b, from)
    ensures Fed(r, c, a) != Fed(r, c, b)
  {
    BitsLength(r, a);
    BitsLength(r, b);
    forall k | 0 <= k < 8 * |a| && !(8 * from <= k < 8 * from + 32) ensures Bits(r, a)[k] == Bits(r, b)[k] {
      BitsAt(r, a, k);
      BitsAt(r, b, k);
    }
    BurstShows(r, c, a, b, 8 * from);
  }

  // ---- A table of bytes ----

  /** A word is its low byte and its high rest, which eight steps only drop. */
  ghost predicate SplitsAt<T, B>(r: Register<T, B>, c: T) {
    c == r.xor(r.widen(r.low(c)), r.high(c)) && Steps(r, r.high(c), 8) == r.drop(c)
  }

  ghost predicate DropsAt<T, B>(r: Register<T, B>, c: T, b: B) {
    r.drop(r.xor(c, r.widen(b))) == r.drop(c)
  }

  ghost predicate Splits<T(!new), B(!new)>(r: Register<T, B>) {
    (forall c :: SplitsAt(r, c)) && (forall c, b :: DropsAt(r, c, b))
  }

  /** The entry for one byte. */
  function Entry<T, B>(r: Register<T, B>, b: B): T {
    Steps(r, r.widen(b), 8)
  }

  function TableFed<T, B>(r: Register<T, B>, c: T, data: seq<B>): T
    decreases |data|
  {
    if data == [] then c
    else
      var before := TableFed(r, c, data[..|data| - 1]);
      r.xor(Entry(r, r.low(r.xor(before, r.widen(data[|data| - 1])))), r.drop(before))
  }

  /** Stepping through the bits and looking up bytes in a table come to the
      same. */
  lemma {:induction false} TableAgrees<T(!new), B(!new)>(r: Register<T, B>, c: T, data: seq<B>)
    requires Proper(r) && Splits(r)
    ensures TableFed(r, c, data) == Fed(r, c, data)
    decreases |data|
  {
    if data != [] {
      var before, last := Fed(r, c, data[..|data| - 1]), data[|data| - 1];
      var sum := r.xor(before, r.widen(last));
      TableAgrees(r, c, data[..|data| - 1]);
      assert SplitsAt(r, sum) && DropsAt(r, before, last);
      StepsLinear(r, r.widen(r.low(sum)), r.high(sum), 8);
    }
  }
}
