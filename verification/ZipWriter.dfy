/** The writer of the add-on's archive (xtask/src/nvda.rs). */
module ZipWriter {
  import opened Basics
  import opened Zip
  import ZipRoundTrip
  import Crc

  // ---- Little-endian numbers and CRC-32 ----

  function Le16(n: nat): seq<Byte> {
    [n % 256, n / 256 % 256]
  }

  function Le32(n: nat): seq<Byte> {
    [n % 256, n / 256 % 256, n / 256 / 256 % 256, n / 256 / 256 / 256 % 256]
  }

  function FromLe16(a: seq<Byte>): nat {
    if |a| != 2 then 0 else a[0] as int + 256 * a[1] as int
  }

  function FromLe32(a: seq<Byte>): nat {
    if |a| != 4 then 0
    else a[0] as int + 256 * a[1] as int + 0x1_0000 * a[2] as int + 0x100_0000 * a[3] as int
  }

  lemma ReadLe16(n: nat)
    requires n < SHORT
    ensures FromLe16(Le16(n)) == n
  {
  }

  lemma ReadLe32(n: nat)
    requires n < WORD
    ensures FromLe32(Le32(n)) == n
  {
    var m := n / 256;
    var q := m / 256;
    assert n == 256 * m + n % 256 && m == 256 * q + m % 256 && q == 256 * (q / 256) + q % 256;
  }

  function AsBits(data: seq<Byte>): seq<bv8> {
    seq(|data|, i requires 0 <= i < |data| => data[i] as bv8)
  }

  function CrcOf(data: seq<Byte>): (crc: nat)
    ensures crc < WORD
  {
    Crc.Checksum(AsBits(data)) as nat
  }

  const ZIP: Codec := Codec(Le16, Le32, FromLe16, FromLe32, CrcOf)

  lemma ZipProper()
    ensures Proper(ZIP)
  {
    forall n: nat | n < SHORT ensures ZIP.readShort(ZIP.short(n)) == n { ReadLe16(n); }
    forall n: nat | n < WORD ensures ZIP.readWord(ZIP.word(n)) == n { ReadLe32(n); }
  }

  // ---- The bytes of the records ----

  lemma ConstantBytes()
    ensures Le32(0x0403_4b50) == [0x50, 0x4B, 3, 4] && Le32(0x0201_4b50) == [0x50, 0x4B, 1, 2]
    ensures Le32(0x0605_4b50) == [0x50, 0x4B, 5, 6] && Le32(0) == [0, 0, 0, 0]
    ensures Le16(20) == [20, 0] && Le16(0x800) == [0, 8] && Le16(33) == [33, 0] && Le16(0) == [0, 0]
  {
  }

  /** The bytes of the records: the signatures, the versions, the flag of names in
      UTF-8, the method, the time and the date, then what depends on the entry. */
  lemma LocalBytes(e: Entry)
    ensures Local(ZIP, e) ==
            Whole([[0x50, 0x4B, 3, 4], [20, 0], [0, 8], [0, 0], [0, 0], [33, 0],
                   Le32(CrcOf(e.data)), Le32(|e.data|), Le32(|e.data|), Le16(|e.name|), [0, 0], e.name, e.data])
  {
    ConstantBytes();
    assert LocalHeader(ZIP, e) + [e.name, e.data] ==
           [[0x50, 0x4B, 3, 4], [20, 0], [0, 8], [0, 0], [0, 0], [33, 0],
            Le32(CrcOf(e.data)), Le32(|e.data|), Le32(|e.data|), Le16(|e.name|), [0, 0], e.name, e.data];
  }

  lemma CentralBytes(e: Entry, offset: nat)
    ensures Central(ZIP, e, offset) ==
            Whole([[0x50, 0x4B, 1, 2], [20, 0], [20, 0], [0, 8], [0, 0], [0, 0], [33, 0],
                   Le32(CrcOf(e.data)), Le32(|e.data|), Le32(|e.data|), Le16(|e.name|), [0, 0], [0, 0], [0, 0], [0, 0],
                   [0, 0, 0, 0], Le32(offset), e.name])
  {
    ConstantBytes();
    assert CentralHeader(ZIP, e, offset) + [e.name] ==
           [[0x50, 0x4B, 1, 2], [20, 0], [20, 0], [0, 8], [0, 0], [0, 0], [33, 0],
            Le32(CrcOf(e.data)), Le32(|e.data|), Le32(|e.data|), Le16(|e.name|), [0, 0], [0, 0], [0, 0], [0, 0],
            [0, 0, 0, 0], Le32(offset), e.name];
  }

  lemma EndBytes(count: nat, size: nat, offset: nat)
    ensures EndRecord(ZIP, count, size, offset) ==
            Whole([[0x50, 0x4B, 5, 6], [0, 0], [0, 0], Le16(count), Le16(count), Le32(size), Le32(offset), [0, 0]])
  {
    ConstantBytes();
  }

  // ---- The writer ----

  method Extend(out: seq<Byte>, parts: seq<seq<Byte>>) returns (more: seq<Byte>)
    ensures more == out + Whole(parts)
  {
    more := out;
    for k := 0 to |parts|
      invariant more == out + Joined(parts, k)
    {
      more := more + parts[k];
    }
  }

  /** The two buffers after `k` entries. */
  ghost predicate Written(c: Codec, entries: seq<Entry>, k: nat, out: seq<Byte>, central: seq<Byte>) {
    k <= |entries| && out == Joined(Locals(c, entries), k) && central == Joined(Centrals(c, entries), k)
  }

  lemma WrittenNext(c: Codec, entries: seq<Entry>, k: nat, out: seq<Byte>, central: seq<Byte>)
    requires k < |entries| && Written(c, entries, k, out, central)
    ensures Written(c, entries, k + 1, out + Local(c, entries[k]), central + Central(c, entries[k], |out|))
  {
  }

  ghost predicate AllFit(entries: seq<Entry>, k: nat) {
    k <= |entries| && forall i :: 0 <= i < k ==> |entries[i].name| < SHORT && |entries[i].data| < WORD
  }

  lemma TooLarge(c: Codec, entries: seq<Entry>, k: nat)
    requires k < |entries| && (|Joined(Locals(c, entries), k)| >= WORD || !AllFit(entries, k + 1))
    ensures !Within(c, entries)
  {
    JoinedGrows(Locals(c, entries), k, |entries|);
  }

  lemma Finished(c: Codec, entries: seq<Entry>, out: seq<Byte>, central: seq<Byte>)
    requires Written(c, entries, |entries|, out, central) && AllFit(entries, |entries|)
    ensures Within(c, entries) <==> |out| < WORD && |central| < WORD && |entries| < SHORT
    ensures Archive(c, entries) == out + central + EndRecord(c, |entries|, |central|, |out|)
  {
  }

  /** Pushes entry `k` to the two buffers, or fails. */
  method PushEntry(c: Codec, entries: seq<Entry>, k: nat, out: seq<Byte>, central: seq<Byte>)
    returns (fits: bool, moreOut: seq<Byte>, moreCentral: seq<Byte>)
    requires k < |entries| && Written(c, entries, k, out, central) && AllFit(entries, k)
    ensures fits ==> Written(c, entries, k + 1, moreOut, moreCentral) && AllFit(entries, k + 1)
    ensures !fits ==> !Within(c, entries)
  {
    var e := entries[k];
    var offset := |out|;
    moreOut, moreCentral := out, central;
    fits := offset < WORD && |e.data| < WORD && |e.name| < SHORT;
    if fits {
      WrittenNext(c, entries, k, out, central);
      moreOut := PushLocal(c, out, e);
      moreCentral := PushCentral(c, central, e, offset);
    } else {
      TooLarge(c, entries, k);
    }
  }

  method PushEntries(c: Codec, entries: seq<Entry>) returns (fits: bool, out: seq<Byte>, central: seq<Byte>)
    ensures fits ==> Written(c, entries, |entries|, out, central) && AllFit(entries, |entries|)
    ensures !fits ==> !Within(c, entries)
  {
    fits, out, central := true, [], [];
    for k := 0 to |entries|
      invariant fits && Written(c, entries, k, out, central) && AllFit(entries, k)
    {
      fits, out, central := PushEntry(c, entries, k, out, central);
      if !fits { return; }
    }
  }

  /** The archive of `entries`, or none when an offset, a size or a count is too
      large for its field. */
  method StoredZip(c: Codec, entries: seq<Entry>) returns (archive: Option<seq<Byte>>)
    ensures archive.Some? <==> Within(c, entries)
    ensures archive.Some? ==> archive.value == Archive(c, entries)
  {
    var fits, out, central := PushEntries(c, entries);
    if !fits { return None; }
    Finished(c, entries, out, central);
    if |out| >= WORD || |central| >= WORD || |entries| >= SHORT {
      return None;
    }
    var end := PushEnd(c, out + central, |entries|, |central|, |out|);
    archive := Some(end);
  }

  method PushLocal(c: Codec, out: seq<Byte>, e: Entry) returns (more: seq<Byte>)
    ensures more == out + Local(c, e)
  {
    var crc, size := c.check(e.data), |e.data|;
    more := Extend(out,
      [c.word(0x0403_4b50),
       c.short(20), c.short(0x800), c.short(0), c.short(0), c.short(33),
       c.word(crc), c.word(size), c.word(size),
       c.short(|e.name|), c.short(0), e.name, e.data]);
    assert LocalHeader(c, e) + [e.name, e.data] ==
      [c.word(0x0403_4b50),
       c.short(20), c.short(0x800), c.short(0), c.short(0), c.short(33),
       c.word(crc), c.word(size), c.word(size),
       c.short(|e.name|), c.short(0), e.name, e.data];
  }

  method PushCentral(c: Codec, central: seq<Byte>, e: Entry, offset: nat) returns (more: seq<Byte>)
    ensures more == central + Central(c, e, offset)
  {
    var crc, size := c.check(e.data), |e.data|;
    more := Extend(central,
      [c.word(0x0201_4b50),
       c.short(20), c.short(20), c.short(0x800), c.short(0), c.short(0), c.short(33),
       c.word(crc), c.word(size), c.word(size),
       c.short(|e.name|), c.short(0), c.short(0), c.short(0), c.short(0),
       c.word(0), c.word(offset), e.name]);
    assert CentralHeader(c, e, offset) + [e.name] ==
      [c.word(0x0201_4b50),
       c.short(20), c.short(20), c.short(0x800), c.short(0), c.short(0), c.short(33),
       c.word(crc), c.word(size), c.word(size),
       c.short(|e.name|), c.short(0), c.short(0), c.short(0), c.short(0),
       c.word(0), c.word(offset), e.name];
  }

  method PushEnd(c: Codec, out: seq<Byte>, count: nat, size: nat, offset: nat) returns (more: seq<Byte>)
    ensures more == out + EndRecord(c, count, size, offset)
  {
    more := Extend(out,
      [c.word(0x0605_4b50), c.short(0), c.short(0), c.short(count), c.short(count), c.word(size), c.word(offset),
       c.short(0)]);
  }

  /** The add-on's archive, which a reader of zip files takes apart again. */
  method AddonArchive(entries: seq<Entry>) returns (archive: Option<seq<Byte>>)
    ensures archive.Some? <==> Within(ZIP, entries)
    ensures archive.Some? ==> Unzip(ZIP, archive.value) == Some(entries)
  {
    archive := StoredZip(ZIP, entries);
    if archive.Some? {
      ZipProper();
      ZipRoundTrip.RoundTrip(ZIP, entries);
    }
  }
}
