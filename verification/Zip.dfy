/** The zip format as the add-on's archive uses it: its fields, its records and
    a reader of it (sections 4.3.7, 4.3.12 and 4.3.16 of PKWARE's APPNOTE). The
    codec of numbers and the check value are parameters. */
module Zip {
  import opened Basics

  type Byte = x: int | 0 <= x < 256

  /** How numbers of two and of four bytes are written and read, and the check
      value of a file. */
  datatype Codec = Codec(
    short: nat -> seq<Byte>, word: nat -> seq<Byte>, readShort: seq<Byte> -> nat, readWord: seq<Byte> -> nat,
    check: seq<Byte> -> nat)

  /** A file: the bytes of its path and of its text. */
  datatype Entry = Entry(name: seq<Byte>, data: seq<Byte>)

  const SHORT: nat := 0x1_0000
  const WORD: nat := 0x1_0000_0000

  const LOCAL_SIGNATURE: nat := 0x0403_4b50
  const CENTRAL_SIGNATURE: nat := 0x0201_4b50
  const END_SIGNATURE: nat := 0x0605_4b50
  const UTF8_NAMES: nat := 0x800
  /** 1980-01-01, the earliest date zip can express. */
  const DOS_DATE: nat := 33

  /** Numbers that fit are read as written, and a check value fits. */
  ghost predicate Proper(c: Codec) {
    && (forall n: nat :: |c.short(n)| == 2) && (forall n: nat :: |c.word(n)| == 4)
    && (forall n: nat :: n < SHORT ==> c.readShort(c.short(n)) == n)
    && (forall n: nat :: n < WORD ==> c.readWord(c.word(n)) == n)
    && (forall data :: c.check(data) < WORD)
  }

  function At16(c: Codec, a: seq<Byte>, i: nat): nat
    requires i + 2 <= |a|
  {
    c.readShort(a[i..i + 2])
  }

  function At32(c: Codec, a: seq<Byte>, i: nat): nat
    requires i + 4 <= |a|
  {
    c.readWord(a[i..i + 4])
  }

  // ---- Parts ----

  /** `part` stands in `a` at `i`. */
  ghost predicate StandsAt(a: seq<Byte>, i: nat, part: seq<Byte>) {
    i + |part| <= |a| && forall k :: 0 <= k < |part| ==> part[k] == a[i + k]
  }

  lemma SliceStands(a: seq<Byte>, i: nat, part: seq<Byte>)
    requires StandsAt(a, i, part)
    ensures a[i..i + |part|] == part
  {
  }

  lemma Inside(a: seq<Byte>, i: nat, part: seq<Byte>, j: nat, inner: seq<Byte>)
    requires StandsAt(a, i, part) && StandsAt(part, j, inner)
    ensures StandsAt(a, i + j, inner)
  {
    forall k | 0 <= k < |inner| ensures inner[k] == a[i + j + k] {
      assert part[j + k] == a[i + (j + k)];
    }
  }

  lemma ShortStands(c: Codec, a: seq<Byte>, i: nat, n: nat)
    requires Proper(c) && n < SHORT && StandsAt(a, i, c.short(n))
    ensures i + 2 <= |a| && At16(c, a, i) == n
  {
    SliceStands(a, i, c.short(n));
  }

  lemma WordStands(c: Codec, a: seq<Byte>, i: nat, n: nat)
    requires Proper(c) && n < WORD && StandsAt(a, i, c.word(n))
    ensures i + 4 <= |a| && At32(c, a, i) == n
  {
    SliceStands(a, i, c.word(n));
  }

  // ---- Parts in a row ----

  function Joined(parts: seq<seq<Byte>>, n: nat): seq<Byte>
    requires n <= |parts|
  {
    if n == 0 then [] else Joined(parts, n - 1) + parts[n - 1]
  }

  function Whole(parts: seq<seq<Byte>>): seq<Byte> {
    Joined(parts, |parts|)
  }

  lemma {:induction false} PartStands(parts: seq<seq<Byte>>, n: nat, k: nat)
    requires k < n <= |parts|
    ensures StandsAt(Joined(parts, n), |Joined(parts, k)|, parts[k])
  {
    if k < n - 1 { PartStands(parts, n - 1, k); }
  }

  lemma {:induction false} JoinedGrows(parts: seq<seq<Byte>>, k: nat, n: nat)
    requires k <= n <= |parts|
    ensures |Joined(parts, k)| <= |Joined(parts, n)|
  {
    if k < n { JoinedGrows(parts, k, n - 1); }
  }

  // ---- Records ----

  /** Version needed, flags, method (stored), time, date, the check value, the
      size packed and unpacked, the lengths of the name and of no extra field. */
  function LocalHeader(c: Codec, e: Entry): seq<seq<Byte>> {
    [c.word(LOCAL_SIGNATURE), c.short(20), c.short(UTF8_NAMES), c.short(0), c.short(0), c.short(DOS_DATE),
     c.word(c.check(e.data)), c.word(|e.data|), c.word(|e.data|), c.short(|e.name|), c.short(0)]
  }

  /** Version made by, then as the local header, the length of no comment, disk,
      attributes and the offset of the local header. */
  function CentralHeader(c: Codec, e: Entry, offset: nat): seq<seq<Byte>> {
    [c.word(CENTRAL_SIGNATURE), c.short(20), c.short(20), c.short(UTF8_NAMES), c.short(0), c.short(0), c.short(DOS_DATE),
     c.word(c.check(e.data)), c.word(|e.data|), c.word(|e.data|), c.short(|e.name|), c.short(0), c.short(0), c.short(0), c.short(0),
     c.word(0), c.word(offset)]
  }

  function Local(c: Codec, e: Entry): seq<Byte> {
    Whole(LocalHeader(c, e) + [e.name, e.data])
  }

  function Central(c: Codec, e: Entry, offset: nat): seq<Byte> {
    Whole(CentralHeader(c, e, offset) + [e.name])
  }

  function EndRecord(c: Codec, count: nat, size: nat, offset: nat): seq<Byte> {
    Whole([c.word(END_SIGNATURE), c.short(0), c.short(0), c.short(count), c.short(count), c.word(size), c.word(offset), c.short(0)])
  }

  // ---- A reader ----

  /** The local header, name and text at `i`, when they say what the central
      directory says: a stored, unencrypted file of `size` bytes with its name
      and check value. */
  function ReadLocal(c: Codec, a: seq<Byte>, i: nat, name: seq<Byte>, crc: nat, size: nat): Option<seq<Byte>> {
    if i + 30 > |a| || At32(c, a, i) != LOCAL_SIGNATURE then None
    else if At16(c, a, i + 6) != UTF8_NAMES || At16(c, a, i + 8) != 0 then None
    else if At32(c, a, i + 14) != crc || At32(c, a, i + 18) != size || At32(c, a, i + 22) != size then None
    else
      var start := i + 30 + At16(c, a, i + 26) + At16(c, a, i + 28);
      if start + size > |a| || At16(c, a, i + 26) != |name| || a[i + 30..i + 30 + |name|] != name then None
      else
        var data := a[start..start + size];
        if c.check(data) != crc then None else Some(data)
  }

  /** The entry whose central header is at `i`, and where the next one is. */
  function ReadCentral(c: Codec, a: seq<Byte>, i: nat): Option<(Entry, nat)> {
    if i + 46 > |a| || At32(c, a, i) != CENTRAL_SIGNATURE then None
    else if At16(c, a, i + 6) > 20 || At16(c, a, i + 8) != UTF8_NAMES || At16(c, a, i + 10) != 0 then None
    else if At32(c, a, i + 20) != At32(c, a, i + 24) then None
    else
      var next := i + 46 + At16(c, a, i + 28);
      if next > |a| then None
      else
        var name := a[i + 46..next];
        match ReadLocal(c, a, At32(c, a, i + 42), name, At32(c, a, i + 16), At32(c, a, i + 20))
        case None => None
        case Some(data) => Some((Entry(name, data), next + At16(c, a, i + 30) + At16(c, a, i + 32)))
  }

  function Reader(c: Codec, a: seq<Byte>): nat -> Option<(Entry, nat)> {
    (i: nat) => ReadCentral(c, a, i)
  }

  /** `count` entries read one after the other from `i` on, up to `end`. */
  function Walk(read: nat -> Option<(Entry, nat)>, i: nat, count: nat, end: nat): Option<seq<Entry>>
    decreases count
  {
    if count == 0 then if i == end then Some([]) else None
    else
      match read(i)
      case None => None
      case Some(found) =>
        match Walk(read, found.1, count - 1, end)
        case None => None
        case Some(rest) => Some([found.0] + rest)
  }

  /** Every entry, found from the end record. */
  function Unzip(c: Codec, a: seq<Byte>): Option<seq<Entry>> {
    if |a| < 22 then None
    else
      var end := |a| - 22;
      if At32(c, a, end) != END_SIGNATURE || At16(c, a, end + 4) != 0 || At16(c, a, end + 6) != 0 || At16(c, a, end + 20) != 0 then None
      else if At16(c, a, end + 8) != At16(c, a, end + 10) || At32(c, a, end + 16) + At32(c, a, end + 12) != end then None
      else Walk(Reader(c, a), At32(c, a, end + 16), At16(c, a, end + 10), end)
  }

  // ---- The whole archive ----

  function Locals(c: Codec, entries: seq<Entry>): (parts: seq<seq<Byte>>)
    ensures |parts| == |entries|
  {
    seq(|entries|, k requires 0 <= k < |entries| => Local(c, entries[k]))
  }

  /** Each central header points at the local header of its entry. */
  function Centrals(c: Codec, entries: seq<Entry>): (parts: seq<seq<Byte>>)
    ensures |parts| == |entries|
  {
    seq(|entries|, k requires 0 <= k < |entries| =>
      Central(c, entries[k], |Joined(Locals(c, entries), k)|))
  }

  /** Everything the fields can hold. */
  ghost predicate Within(c: Codec, entries: seq<Entry>) {
    && (forall k :: 0 <= k < |entries| ==> |entries[k].name| < SHORT && |entries[k].data| < WORD)
    && |Whole(Locals(c, entries))| < WORD && |Whole(Centrals(c, entries))| < WORD && |entries| < SHORT
  }

  function Archive(c: Codec, entries: seq<Entry>): seq<Byte> {
    var locals, centrals := Whole(Locals(c, entries)), Whole(Centrals(c, entries));
    locals + centrals + EndRecord(c, |entries|, |centrals|, |locals|)
  }
}
