/** What is written is read back: from the end record, through the central
    directory, to every local header. */
module ZipRoundTrip {
  import opened Basics
  import opened Zip

  // ---- Where the fields of a record stand ----

  /** Part `k` of `parts` stands in `a` at `i + at`, wherever the parts do. */
  lemma PartOf(a: seq<Byte>, i: nat, parts: seq<seq<Byte>>, k: nat, at: nat)
    requires k < |parts| && StandsAt(a, i, Whole(parts)) && at == |Joined(parts, k)|
    ensures StandsAt(a, i + at, parts[k])
  {
    PartStands(parts, |parts|, k);
    Inside(a, i, Whole(parts), at, parts[k]);
  }

  lemma ShortOf(c: Codec, a: seq<Byte>, i: nat, parts: seq<seq<Byte>>, k: nat, at: nat, n: nat)
    requires k < |parts| && StandsAt(a, i, Whole(parts)) && at == |Joined(parts, k)| && Proper(c) && n < SHORT && parts[k] == c.short(n)
    ensures i + at + 2 <= |a| && At16(c, a, i + at) == n
  {
    PartOf(a, i, parts, k, at);
    ShortStands(c, a, i + at, n);
  }

  lemma WordOf(c: Codec, a: seq<Byte>, i: nat, parts: seq<seq<Byte>>, k: nat, at: nat, n: nat)
    requires k < |parts| && StandsAt(a, i, Whole(parts)) && at == |Joined(parts, k)| && Proper(c) && n < WORD && parts[k] == c.word(n)
    ensures i + at + 4 <= |a| && At32(c, a, i + at) == n
  {
    PartOf(a, i, parts, k, at);
    WordStands(c, a, i + at, n);
  }

  lemma JoinedStep(parts: seq<seq<Byte>>, k: nat)
    requires k < |parts|
    ensures |Joined(parts, k + 1)| == |Joined(parts, k)| + |parts[k]|
  {
  }

  /** The widths of the fields a local header starts with. */
  ghost predicate LocalWidths(parts: seq<seq<Byte>>) {
    && |parts| == 13 && |parts[0]| == 4 && (forall k :: 1 <= k < 6 ==> |parts[k]| == 2)
    && (forall k :: 6 <= k < 9 ==> |parts[k]| == 4) && |parts[9]| == 2 && |parts[10]| == 2
  }

  lemma LocalOffsets(parts: seq<seq<Byte>>)
    requires LocalWidths(parts)
    ensures |Joined(parts, 0)| == 0 && |Joined(parts, 2)| == 6 && |Joined(parts, 3)| == 8
    ensures |Joined(parts, 6)| == 14 && |Joined(parts, 7)| == 18 && |Joined(parts, 8)| == 22
    ensures |Joined(parts, 9)| == 26 && |Joined(parts, 10)| == 28 && |Joined(parts, 11)| == 30
    ensures |Joined(parts, 12)| == 30 + |parts[11]| && |Whole(parts)| == 30 + |parts[11]| + |parts[12]|
  {
    for k := 0 to 6
      invariant |Joined(parts, k)| == (if k == 0 then 0 else 2 + 2 * k)
      invariant k >= 2 ==> |Joined(parts, 2)| == 6
      invariant k >= 3 ==> |Joined(parts, 3)| == 8
    {
      JoinedStep(parts, k);
    }
    JoinedStep(parts, 6);
    JoinedStep(parts, 7);
    JoinedStep(parts, 8);
    JoinedStep(parts, 9);
    JoinedStep(parts, 10);
    JoinedStep(parts, 11);
    JoinedStep(parts, 12);
  }

  /** The widths of the fields a central header starts with. */
  ghost predicate CentralWidths(parts: seq<seq<Byte>>) {
    && |parts| == 18 && |parts[0]| == 4 && (forall k :: 1 <= k < 7 ==> |parts[k]| == 2)
    && (forall k :: 7 <= k < 10 ==> |parts[k]| == 4) && (forall k :: 10 <= k < 15 ==> |parts[k]| == 2)
    && |parts[15]| == 4 && |parts[16]| == 4
  }

  lemma CentralOffsets(parts: seq<seq<Byte>>)
    requires CentralWidths(parts)
    ensures |Joined(parts, 0)| == 0 && |Joined(parts, 2)| == 6 && |Joined(parts, 3)| == 8 && |Joined(parts, 4)| == 10
    ensures |Joined(parts, 7)| == 16 && |Joined(parts, 8)| == 20 && |Joined(parts, 9)| == 24
    ensures |Joined(parts, 10)| == 28 && |Joined(parts, 11)| == 30 && |Joined(parts, 12)| == 32
    ensures |Joined(parts, 16)| == 42 && |Joined(parts, 17)| == 46 && |Whole(parts)| == 46 + |parts[17]|
  {
    for k := 0 to 7
      invariant |Joined(parts, k)| == (if k == 0 then 0 else 2 + 2 * k)
      invariant k >= 2 ==> |Joined(parts, 2)| == 6
      invariant k >= 3 ==> |Joined(parts, 3)| == 8
      invariant k >= 4 ==> |Joined(parts, 4)| == 10
    {
      JoinedStep(parts, k);
    }
    JoinedStep(parts, 7);
    JoinedStep(parts, 8);
    JoinedStep(parts, 9);
    JoinedStep(parts, 10);
    JoinedStep(parts, 11);
    JoinedStep(parts, 12);
    JoinedStep(parts, 13);
    JoinedStep(parts, 14);
    JoinedStep(parts, 15);
    JoinedStep(parts, 16);
    JoinedStep(parts, 17);
  }

  ghost predicate EndWidths(parts: seq<seq<Byte>>) {
    && |parts| == 8 && |parts[0]| == 4 && (forall k :: 1 <= k < 5 ==> |parts[k]| == 2)
    && |parts[5]| == 4 && |parts[6]| == 4 && |parts[7]| == 2
  }

  lemma EndOffsets(parts: seq<seq<Byte>>)
    requires EndWidths(parts)
    ensures |Joined(parts, 0)| == 0 && |Joined(parts, 1)| == 4 && |Joined(parts, 2)| == 6 && |Joined(parts, 3)| == 8
    ensures |Joined(parts, 4)| == 10 && |Joined(parts, 5)| == 12 && |Joined(parts, 6)| == 16
    ensures |Joined(parts, 7)| == 20 && |Whole(parts)| == 22
  {
    JoinedStep(parts, 0);
    JoinedStep(parts, 1);
    JoinedStep(parts, 2);
    JoinedStep(parts, 3);
    JoinedStep(parts, 4);
    JoinedStep(parts, 5);
    JoinedStep(parts, 6);
    JoinedStep(parts, 7);
  }

  // ---- Reading one record ----

  ghost predicate LocalValues(c: Codec, a: seq<Byte>, i: nat, e: Entry) {
    && i + 30 + |e.name| + |e.data| <= |a| && At32(c, a, i) == LOCAL_SIGNATURE
    && At16(c, a, i + 6) == UTF8_NAMES && At16(c, a, i + 8) == 0
    && At32(c, a, i + 14) == c.check(e.data) && At32(c, a, i + 18) == |e.data| && At32(c, a, i + 22) == |e.data|
    && At16(c, a, i + 26) == |e.name| && At16(c, a, i + 28) == 0
    && StandsAt(a, i + 30, e.name) && StandsAt(a, i + 30 + |e.name|, e.data)
  }

  lemma LocalFields(c: Codec, a: seq<Byte>, i: nat, e: Entry)
    requires Proper(c) && |e.name| < SHORT && |e.data| < WORD && StandsAt(a, i, Local(c, e))
    ensures LocalValues(c, a, i, e)
  {
    var parts := LocalHeader(c, e) + [e.name, e.data];
    LocalOffsets(parts);
    WordOf(c, a, i, parts, 0, 0, LOCAL_SIGNATURE);
    ShortOf(c, a, i, parts, 2, 6, UTF8_NAMES);
    ShortOf(c, a, i, parts, 3, 8, 0);
    WordOf(c, a, i, parts, 6, 14, c.check(e.data));
    WordOf(c, a, i, parts, 7, 18, |e.data|);
    WordOf(c, a, i, parts, 8, 22, |e.data|);
    ShortOf(c, a, i, parts, 9, 26, |e.name|);
    ShortOf(c, a, i, parts, 10, 28, 0);
    PartOf(a, i, parts, 11, 30);
    PartOf(a, i, parts, 12, 30 + |e.name|);
  }

  lemma LocalRead(c: Codec, a: seq<Byte>, i: nat, e: Entry)
    requires LocalValues(c, a, i, e)
    ensures ReadLocal(c, a, i, e.name, c.check(e.data), |e.data|) == Some(e.data)
  {
    SliceStands(a, i + 30, e.name);
    SliceStands(a, i + 30 + |e.name|, e.data);
  }

  /** What the central header at `i` says of the file and of its place. */
  ghost predicate CentralFile(c: Codec, a: seq<Byte>, i: nat, e: Entry) {
    && i + 46 <= |a| && At32(c, a, i) == CENTRAL_SIGNATURE
    && At16(c, a, i + 6) == 20 && At16(c, a, i + 8) == UTF8_NAMES && At16(c, a, i + 10) == 0
    && At32(c, a, i + 16) == c.check(e.data) && At32(c, a, i + 20) == |e.data| && At32(c, a, i + 24) == |e.data|
  }

  ghost predicate CentralPlace(c: Codec, a: seq<Byte>, i: nat, e: Entry, offset: nat) {
    && i + 46 + |e.name| <= |a| && At16(c, a, i + 28) == |e.name| && At16(c, a, i + 30) == 0 && At16(c, a, i + 32) == 0
    && At32(c, a, i + 42) == offset && StandsAt(a, i + 46, e.name)
  }

  lemma CentralFileRead(c: Codec, a: seq<Byte>, i: nat, e: Entry, offset: nat)
    requires Proper(c) && |e.data| < WORD && StandsAt(a, i, Central(c, e, offset))
    ensures CentralFile(c, a, i, e)
  {
    var parts := CentralHeader(c, e, offset) + [e.name];
    CentralOffsets(parts);
    WordOf(c, a, i, parts, 0, 0, CENTRAL_SIGNATURE);
    ShortOf(c, a, i, parts, 2, 6, 20);
    ShortOf(c, a, i, parts, 3, 8, UTF8_NAMES);
    ShortOf(c, a, i, parts, 4, 10, 0);
    WordOf(c, a, i, parts, 7, 16, c.check(e.data));
    WordOf(c, a, i, parts, 8, 20, |e.data|);
    WordOf(c, a, i, parts, 9, 24, |e.data|);
  }

  lemma CentralPlaceRead(c: Codec, a: seq<Byte>, i: nat, e: Entry, offset: nat)
    requires Proper(c) && |e.name| < SHORT && offset < WORD && StandsAt(a, i, Central(c, e, offset))
    ensures CentralPlace(c, a, i, e, offset)
  {
    var parts := CentralHeader(c, e, offset) + [e.name];
    CentralOffsets(parts);
    ShortOf(c, a, i, parts, 10, 28, |e.name|);
    ShortOf(c, a, i, parts, 11, 30, 0);
    ShortOf(c, a, i, parts, 12, 32, 0);
    WordOf(c, a, i, parts, 16, 42, offset);
    PartOf(a, i, parts, 17, 46);
  }

  lemma CentralRead(c: Codec, a: seq<Byte>, i: nat, e: Entry, offset: nat)
    requires CentralFile(c, a, i, e) && CentralPlace(c, a, i, e, offset)
    requires ReadLocal(c, a, offset, e.name, c.check(e.data), |e.data|) == Some(e.data)
    ensures ReadCentral(c, a, i) == Some((e, i + 46 + |e.name|))
  {
    SliceStands(a, i + 46, e.name);
  }

  ghost predicate EndValues(c: Codec, a: seq<Byte>, i: nat, count: nat, size: nat, offset: nat) {
    && i + 22 <= |a| && At32(c, a, i) == END_SIGNATURE && At16(c, a, i + 4) == 0 && At16(c, a, i + 6) == 0
    && At16(c, a, i + 8) == count && At16(c, a, i + 10) == count
    && At32(c, a, i + 12) == size && At32(c, a, i + 16) == offset && At16(c, a, i + 20) == 0
  }

  lemma EndFields(c: Codec, a: seq<Byte>, i: nat, count: nat, size: nat, offset: nat)
    requires Proper(c) && count < SHORT && size < WORD && offset < WORD
    requires StandsAt(a, i, EndRecord(c, count, size, offset))
    ensures EndValues(c, a, i, count, size, offset) && |EndRecord(c, count, size, offset)| == 22
  {
    var parts := [c.word(END_SIGNATURE), c.short(0), c.short(0), c.short(count), c.short(count), c.word(size),
                  c.word(offset), c.short(0)];
    EndOffsets(parts);
    WordOf(c, a, i, parts, 0, 0, END_SIGNATURE);
    ShortOf(c, a, i, parts, 1, 4, 0);
    ShortOf(c, a, i, parts, 2, 6, 0);
    ShortOf(c, a, i, parts, 3, 8, count);
    ShortOf(c, a, i, parts, 4, 10, count);
    WordOf(c, a, i, parts, 5, 12, size);
    WordOf(c, a, i, parts, 6, 16, offset);
    ShortOf(c, a, i, parts, 7, 20, 0);
  }

  // ---- Reading the archive ----

  lemma LocalFound(c: Codec, a: seq<Byte>, locals: seq<seq<Byte>>, k: nat, e: Entry)
    requires Proper(c) && |e.name| < SHORT && |e.data| < WORD
    requires k < |locals| && StandsAt(a, 0, Whole(locals)) && locals[k] == Local(c, e)
    ensures ReadLocal(c, a, |Joined(locals, k)|, e.name, c.check(e.data), |e.data|) == Some(e.data)
  {
    var offset := |Joined(locals, k)|;
    PartOf(a, 0, locals, k, offset);
    LocalFields(c, a, offset, e);
    LocalRead(c, a, offset, e);
  }

  lemma CentralFound(c: Codec, a: seq<Byte>, start: nat, centrals: seq<seq<Byte>>, k: nat, e: Entry, offset: nat)
    requires Proper(c) && |e.name| < SHORT && |e.data| < WORD && offset < WORD
    requires k < |centrals| && StandsAt(a, start, Whole(centrals)) && centrals[k] == Central(c, e, offset)
    ensures CentralFile(c, a, start + |Joined(centrals, k)|, e)
    ensures CentralPlace(c, a, start + |Joined(centrals, k)|, e, offset)
  {
    var at := |Joined(centrals, k)|;
    PartOf(a, start, centrals, k, at);
    assert CentralFile(c, a, start + at, e) by {
      CentralFileRead(c, a, start + at, e, offset);
    }
    assert CentralPlace(c, a, start + at, e, offset) by {
      CentralPlaceRead(c, a, start + at, e, offset);
    }
  }

  lemma CentralLength(c: Codec, e: Entry, offset: nat)
    requires Proper(c)
    ensures |Central(c, e, offset)| == 46 + |e.name|
  {
    CentralOffsets(CentralHeader(c, e, offset) + [e.name]);
  }

  ghost predicate Leads(read: nat -> Option<(Entry, nat)>, i: nat, e: Entry, next: nat) {
    read(i) == Some((e, next))
  }

  /** An entry's two records, as the reader finds them. */
  ghost predicate EntryStands(c: Codec, a: seq<Byte>, i: nat, e: Entry, offset: nat) {
    && CentralFile(c, a, i, e) && CentralPlace(c, a, i, e, offset)
    && ReadLocal(c, a, offset, e.name, c.check(e.data), |e.data|) == Some(e.data)
  }

  lemma EntryLeads(c: Codec, a: seq<Byte>, i: nat, e: Entry, offset: nat, next: nat)
    requires EntryStands(c, a, i, e, offset) && next == i + 46 + |e.name|
    ensures Leads(Reader(c, a), i, e, next)
  {
    CentralRead(c, a, i, e, offset);
  }

  lemma EntryStandsFound(c: Codec, a: seq<Byte>, locals: seq<seq<Byte>>, centrals: seq<seq<Byte>>, start: nat, k: nat,
                         e: Entry, offset: nat)
    requires Proper(c) && |e.name| < SHORT && |e.data| < WORD && |Whole(locals)| < WORD
    requires k < |locals| && StandsAt(a, 0, Whole(locals)) && locals[k] == Local(c, e) && offset == |Joined(locals, k)|
    requires k < |centrals| && StandsAt(a, start, Whole(centrals)) && centrals[k] == Central(c, e, offset)
    ensures EntryStands(c, a, start + |Joined(centrals, k)|, e, offset)
  {
    JoinedWithin(locals, k);
    LocalFound(c, a, locals, k, e);
    CentralFound(c, a, start, centrals, k, e, offset);
  }

  lemma JoinedWithin(parts: seq<seq<Byte>>, k: nat)
    requires k <= |parts|
    ensures |Joined(parts, k)| <= |Whole(parts)|
  {
    JoinedGrows(parts, k, |parts|);
  }

  lemma NextStart(c: Codec, centrals: seq<seq<Byte>>, k: nat, e: Entry, offset: nat)
    requires Proper(c) && k < |centrals| && centrals[k] == Central(c, e, offset)
    ensures |Joined(centrals, k + 1)| == |Joined(centrals, k)| + 46 + |e.name|
  {
    CentralLength(c, e, offset);
    JoinedStep(centrals, k);
  }

  /** Reading leads from each start to the next. */
  ghost predicate Chained(read: nat -> Option<(Entry, nat)>, entries: seq<Entry>, starts: seq<nat>) {
    && |starts| == |entries| + 1
    && forall k :: 0 <= k < |entries| ==> Leads(read, starts[k], entries[k], starts[k + 1])
  }

  lemma {:induction false} ChainWalked(read: nat -> Option<(Entry, nat)>, entries: seq<Entry>, starts: seq<nat>, k: nat)
    requires Chained(read, entries, starts) && k <= |entries|
    ensures Walk(read, starts[k], |entries| - k, starts[|entries|]) == Some(entries[k..])
    decreases |entries| - k
  {
    if k == |entries| {
      assert entries[k..] == [];
    } else {
      ChainWalked(read, entries, starts, k + 1);
      assert Leads(read, starts[k], entries[k], starts[k + 1]);
      WalkStep(read, starts[k], entries[k], starts[k + 1], |entries| - k - 1, starts[|entries|]);
      assert entries[k..] == [entries[k]] + entries[k + 1..];
    }
  }

  lemma WalkStep(read: nat -> Option<(Entry, nat)>, i: nat, e: Entry, next: nat, count: nat, end: nat)
    requires Leads(read, i, e, next) && Walk(read, next, count, end).Some?
    ensures Walk(read, i, count + 1, end) == Some([e] + Walk(read, next, count, end).value)
  {
  }

  /** The records of entry `k`. */
  ghost predicate EntryLaid(c: Codec, entries: seq<Entry>, locals: seq<seq<Byte>>, centrals: seq<seq<Byte>>, k: nat)
    requires k < |entries| && k < |locals| && k < |centrals|
  {
    var e := entries[k];
    && |e.name| < SHORT && |e.data| < WORD
    && locals[k] == Local(c, e) && centrals[k] == Central(c, e, |Joined(locals, k)|)
  }

  ghost predicate Laid(c: Codec, entries: seq<Entry>, locals: seq<seq<Byte>>, centrals: seq<seq<Byte>>) {
    && |locals| == |entries| && |centrals| == |entries| && |Whole(locals)| < WORD
    && forall k :: 0 <= k < |entries| ==> EntryLaid(c, entries, locals, centrals, k)
  }

  lemma WithinLaid(c: Codec, entries: seq<Entry>)
    requires Within(c, entries)
    ensures Laid(c, entries, Locals(c, entries), Centrals(c, entries))
  {
    forall k | 0 <= k < |entries| ensures EntryLaid(c, entries, Locals(c, entries), Centrals(c, entries), k) {
    }
  }

  lemma StepRead(c: Codec, a: seq<Byte>, entries: seq<Entry>, locals: seq<seq<Byte>>, centrals: seq<seq<Byte>>,
                 start: nat, k: nat)
    requires Proper(c) && k < |entries| && k < |locals| && k < |centrals| && EntryLaid(c, entries, locals, centrals, k)
    requires StandsAt(a, 0, Whole(locals)) && StandsAt(a, start, Whole(centrals)) && |Whole(locals)| < WORD
    ensures Leads(Reader(c, a), start + |Joined(centrals, k)|, entries[k], start + |Joined(centrals, k + 1)|)
  {
    var e := entries[k];
    EntryStandsFound(c, a, locals, centrals, start, k, e, |Joined(locals, k)|);
    StandingLeads(c, a, centrals, start, k, e, |Joined(locals, k)|, start + |Joined(centrals, k)|);
  }

  lemma StandingLeads(c: Codec, a: seq<Byte>, centrals: seq<seq<Byte>>, start: nat, k: nat, e: Entry, offset: nat, i: nat)
    requires Proper(c) && k < |centrals| && centrals[k] == Central(c, e, offset) && i == start + |Joined(centrals, k)|
    requires EntryStands(c, a, i, e, offset)
    ensures Leads(Reader(c, a), i, e, start + |Joined(centrals, k + 1)|)
  {
    var next := start + |Joined(centrals, k + 1)|;
    assert next == i + 46 + |e.name| by {
      NextStart(c, centrals, k, e, offset);
    }
    EntryLeads(c, a, i, e, offset, next);
  }

  /** Reading leads from each header of the directory to the next. */
  ghost predicate Following(read: nat -> Option<(Entry, nat)>, entries: seq<Entry>, centrals: seq<seq<Byte>>, start: nat) {
    && |centrals| == |entries|
    && forall k :: 0 <= k < |entries| ==>
         Leads(read, start + |Joined(centrals, k)|, entries[k], start + |Joined(centrals, k + 1)|)
  }

  lemma LaidFollowing(c: Codec, a: seq<Byte>, entries: seq<Entry>, locals: seq<seq<Byte>>, centrals: seq<seq<Byte>>,
                      start: nat)
    requires Proper(c) && Laid(c, entries, locals, centrals)
    requires StandsAt(a, 0, Whole(locals)) && StandsAt(a, start, Whole(centrals))
    ensures Following(Reader(c, a), entries, centrals, start)
  {
    var read := Reader(c, a);
    forall k | 0 <= k < |entries|
      ensures Leads(read, start + |Joined(centrals, k)|, entries[k], start + |Joined(centrals, k + 1)|)
    {
      assert EntryLaid(c, entries, locals, centrals, k);
      StepRead(c, a, entries, locals, centrals, start, k);
    }
  }

  lemma FollowingWalked(read: nat -> Option<(Entry, nat)>, entries: seq<Entry>, centrals: seq<seq<Byte>>, start: nat)
    requires Following(read, entries, centrals, start)
    ensures Walk(read, start, |entries|, start + |Whole(centrals)|) == Some(entries)
  {
    var starts := seq(|entries| + 1, k requires 0 <= k <= |entries| => start + |Joined(centrals, k)|);
    ChainWalked(read, entries, starts, 0);
    assert entries[0..] == entries;
  }

  lemma ThreePartsStand(a: seq<Byte>, b: seq<Byte>, c: seq<Byte>)
    ensures StandsAt(a + b + c, 0, a) && StandsAt(a + b + c, |a|, b) && StandsAt(a + b + c, |a| + |b|, c)
  {
  }

  lemma UnzipWalks(c: Codec, a: seq<Byte>, count: nat, start: nat, size: nat)
    requires |a| == start + size + 22 && EndValues(c, a, start + size, count, size, start)
    ensures Unzip(c, a) == Walk(Reader(c, a), start, count, start + size)
  {
  }

  lemma DirectoryWalked(c: Codec, a: seq<Byte>, entries: seq<Entry>, locals: seq<seq<Byte>>, centrals: seq<seq<Byte>>,
                        start: nat)
    requires Proper(c) && Laid(c, entries, locals, centrals)
    requires StandsAt(a, 0, Whole(locals)) && StandsAt(a, start, Whole(centrals))
    ensures Walk(Reader(c, a), start, |entries|, start + |Whole(centrals)|) == Some(entries)
  {
    LaidFollowing(c, a, entries, locals, centrals, start);
    FollowingWalked(Reader(c, a), entries, centrals, start);
  }

  lemma ArchiveParts(c: Codec, count: nat, locals: seq<Byte>, centrals: seq<Byte>, a: seq<Byte>)
    requires Proper(c) && count < SHORT && |locals| < WORD && |centrals| < WORD
    requires a == locals + centrals + EndRecord(c, count, |centrals|, |locals|)
    ensures StandsAt(a, 0, locals) && StandsAt(a, |locals|, centrals) && |a| == |locals| + |centrals| + 22
    ensures EndValues(c, a, |locals| + |centrals|, count, |centrals|, |locals|)
  {
    ThreePartsStand(locals, centrals, EndRecord(c, count, |centrals|, |locals|));
    EndFields(c, a, |locals| + |centrals|, count, |centrals|, |locals|);
  }

  lemma LaidRead(c: Codec, entries: seq<Entry>, locals: seq<seq<Byte>>, centrals: seq<seq<Byte>>, a: seq<Byte>, start: nat)
    requires Proper(c) && Laid(c, entries, locals, centrals)
    requires StandsAt(a, 0, Whole(locals)) && StandsAt(a, start, Whole(centrals))
    requires |a| == start + |Whole(centrals)| + 22
    requires EndValues(c, a, start + |Whole(centrals)|, |entries|, |Whole(centrals)|, start)
    ensures Unzip(c, a) == Some(entries)
  {
    DirectoryWalked(c, a, entries, locals, centrals, start);
    UnzipWalks(c, a, |entries|, start, |Whole(centrals)|);
  }

  /** Reading an archive gives the entries it was written from. */
  lemma RoundTrip(c: Codec, entries: seq<Entry>)
    requires Proper(c) && Within(c, entries)
    ensures Unzip(c, Archive(c, entries)) == Some(entries)
  {
    WithinLaid(c, entries);
    PartsRead(c, entries, Locals(c, entries), Centrals(c, entries), Archive(c, entries));
  }

  lemma PartsRead(c: Codec, entries: seq<Entry>, locals: seq<seq<Byte>>, centrals: seq<seq<Byte>>, a: seq<Byte>)
    requires Proper(c) && Laid(c, entries, locals, centrals) && |entries| < SHORT && |Whole(centrals)| < WORD
    requires a == Whole(locals) + Whole(centrals) + EndRecord(c, |entries|, |Whole(centrals)|, |Whole(locals)|)
    ensures Unzip(c, a) == Some(entries)
  {
    ArchiveParts(c, |entries|, Whole(locals), Whole(centrals), a);
    LaidRead(c, entries, locals, centrals, a, |Whole(locals)|);
  }

  /** So archives tell entries apart. */
  lemma ArchiveInjective(c: Codec, a: seq<Entry>, b: seq<Entry>)
    requires Proper(c) && Within(c, a) && Within(c, b) && Archive(c, a) == Archive(c, b)
    ensures a == b
  {
    RoundTrip(c, a);
    RoundTrip(c, b);
  }
}
