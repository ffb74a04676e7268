/** What reading an lcov text gives (xtask/src/coverage.rs), said line by line and
    without the state of the reader. */
module LcovReading {
  import opened Basics
  import opened Merging
  import opened LineCounts
  import opened Texts
  import opened Lcov
  import Decimal

  // ---- What a line says ----

  /** `line` is a data line: a line number of 32 bits, a count of 64 bits, and perhaps
      more after another comma. */
  ghost predicate DataBy(line: string, a: string, b: string, rest: string, number: nat, count: nat) {
    && line == "DA:" + a + "," + b + rest && ',' !in a && ',' !in b && (rest == "" || rest[0] == ',')
    && Decimal.Numeral(a, number) && number < 0x1_0000_0000
    && Decimal.Numeral(b, count) && count < 0x1_0000_0000_0000_0000
  }

  ghost predicate IsData(line: string, number: nat, count: nat) {
    exists a, b, rest :: DataBy(line, a, b, rest, number, count)
  }

  lemma CommaIs(s: string, a: string, more: string)
    requires s == a + "," + more && ',' !in a
    ensures ',' in s && Find(s, ',') == |a| && s[..|a|] == a && s[|a| + 1..] == more
  {
    assert s[|a|] == ',';
    assert forall k :: 0 <= k < |a| ==> s[k] == a[k] && a[k] in a;
  }

  lemma Cut(s: string) returns (a: string, more: string)
    requires ',' in s
    ensures s == a + "," + more && ',' !in a
  {
    var n := Find(s, ',');
    a, more := s[..n], s[n + 1..];
  }

  lemma {:induction false} OnePiece(s: string)
    requires ',' !in s
    ensures Pieces(s) == [s]
  {
    if s != "" {
      OnePiece(s[1..]);
      assert s == [s[0]] + s[1..];
    }
  }

  lemma {:induction false} PieceThen(s: string, a: string, more: string)
    requires s == a + "," + more && ',' !in a
    ensures Pieces(s) == [a] + Pieces(more)
  {
    if a == "" {
      assert s[0] == ',' && s[1..] == more;
    } else {
      assert s[0] == a[0] && a[0] in a && s[1..] == a[1..] + "," + more;
      PieceThen(s[1..], a[1..], more);
      assert a == [a[0]] + a[1..];
      assert ([a[1..]] + Pieces(more))[1..] == Pieces(more);
    }
  }

  lemma FirstTwo(s: string, a: string, b: string, rest: string, more: string)
    requires s == a + "," + more && more == b + rest && ',' !in a && ',' !in b && (rest == "" || rest[0] == ',')
    ensures |Pieces(s)| >= 2 && Pieces(s)[0] == a && Pieces(s)[1] == b
  {
    PieceThen(s, a, more);
    if rest == "" {
      assert more == b;
      OnePiece(b);
    } else {
      assert more == b + "," + rest[1..];
      PieceThen(more, b, rest[1..]);
    }
  }

  lemma TwoPieces(s: string) returns (a: string, b: string, rest: string, more: string)
    requires |Pieces(s)| >= 2
    ensures s == a + "," + more && more == b + rest && ',' !in a && ',' !in b && (rest == "" || rest[0] == ',')
  {
    if ',' !in s { OnePiece(s); }
    a, more := Cut(s);
    b, rest := more, "";
    if ',' in more {
      var last;
      b, last := Cut(more);
      rest := "," + last;
    }
  }

  lemma FieldsRead(fields: seq<string>, number: nat, count: nat)
    ensures DataOf(fields) == Data(number, count) <==>
            && |fields| >= 2 && Decimal.Numeral(fields[0], number) && number < 0x1_0000_0000
            && Decimal.Numeral(fields[1], count) && count < 0x1_0000_0000_0000_0000
  {
    if |fields| >= 2 {
      Decimal.ParseReads(fields[0], LINE_LIMIT, number);
      Decimal.ParseReads(fields[1], COUNT_LIMIT, count);
    }
  }

  lemma DataSpelled(line: string, a: string, b: string, rest: string, more: string)
    requires more == b + rest
    ensures line == "DA:" + a + "," + b + rest <==> "DA:" <= line && line[3..] == a + "," + more
  {
    var s := a + "," + more;
    assert "DA:" + a + "," + b + rest == "DA:" + s;
    assert ("DA:" + s)[3..] == s;
    assert "DA:" <= line ==> line == "DA:" + line[3..];
  }

  /** A line is read as data exactly when it is. */
  lemma DataReads(line: string, number: nat, count: nat)
    ensures KindOf(line) == Data(number, count) <==> IsData(line, number, count)
  {
    if KindOf(line) == Data(number, count) {
      DataForward(line, number, count);
    }
    if IsData(line, number, count) {
      var a, b, rest :| DataBy(line, a, b, rest, number, count);
      DataBackward(line, a, b, rest, number, count);
    }
  }

  lemma DataLineIs(line: string)
    requires "DA:" <= line
    ensures KindOf(line) == DataOf(Pieces(line[3..]))
  {
    assert line[0] == 'D';
  }

  lemma DataBackward(line: string, a: string, b: string, rest: string, number: nat, count: nat)
    requires DataBy(line, a, b, rest, number, count)
    ensures KindOf(line) == Data(number, count)
  {
    DataSpelled(line, a, b, rest, b + rest);
    FirstTwo(line[3..], a, b, rest, b + rest);
    FieldsRead(Pieces(line[3..]), number, count);
    DataLineIs(line);
  }

  lemma DataForward(line: string, number: nat, count: nat)
    requires KindOf(line) == Data(number, count)
    ensures IsData(line, number, count)
  {
    var s := line[3..];
    FieldsRead(Pieces(s), number, count);
    var a, b, rest, more := TwoPieces(s);
    FirstTwo(s, a, b, rest, more);
    DataSpelled(line, a, b, rest, more);
    assert DataBy(line, a, b, rest, number, count);
  }

  /** What the other lines are read as. */
  lemma KindMeans(line: string, path: string)
    ensures KindOf(line) == StartFile(path) <==> line == "SF:" + path
    ensures KindOf(line) == EndRecord <==> line == "end_of_record"
    ensures KindOf(line) == Malformed <==> "DA:" <= line && forall number, count :: !IsData(line, number, count)
  {
    assert "SF:" <= line ==> line == "SF:" + line[3..];
    assert "end_of_record"[0] == 'e';
    assert line == "SF:" + path ==> line[3..] == path;
    assert "DA:" <= line ==> line[0] == 'D';
    assert "SF:" <= line ==> line[0] == 'S';
    if KindOf(line) == Malformed {
      forall number, count ensures !IsData(line, number, count) { DataReads(line, number, count); }
    }
    if "DA:" <= line && KindOf(line).Data? { DataReads(line, KindOf(line).line, KindOf(line).count); }
  }

  // ---- What all the lines say ----

  /** The file whose record line `k` is in: the last one started before it, if no
      record has ended since. */
  ghost predicate InRecord(kinds: seq<Kind>, k: nat, path: string) {
    exists j :: 0 <= j < k <= |kinds| && kinds[j] == StartFile(path)
                && forall i :: j < i < k ==> !kinds[i].StartFile? && !kinds[i].EndRecord?
  }

  /** Line `k` cannot be read: it is malformed, or data outside a record. */
  ghost predicate Unreadable(kinds: seq<Kind>, k: nat) {
    k < |kinds| && (kinds[k].Malformed? || (kinds[k].Data? && forall path :: !InRecord(kinds, k, path)))
  }

  ghost predicate GivesCount(kinds: seq<Kind>, k: nat, path: string, number: nat) {
    k < |kinds| && kinds[k].Data? && kinds[k].line == number && InRecord(kinds, k, path)
  }

  /** The counts given for a line of a file by the first `k` lines, together. */
  ghost function TotalFor(kinds: seq<Kind>, k: nat, path: string, number: nat): nat
    requires k <= |kinds|
  {
    if k == 0 then 0
    else TotalFor(kinds, k - 1, path, number) + if GivesCount(kinds, k - 1, path, number) then kinds[k - 1].count else 0
  }

  ghost predicate Started(kinds: seq<Kind>, k: nat, path: string)
    requires k <= |kinds|
  {
    exists j :: 0 <= j < k && kinds[j] == StartFile(path)
  }

  ghost predicate Counted(kinds: seq<Kind>, k: nat, path: string, number: nat)
    requires k <= |kinds|
  {
    exists j :: 0 <= j < k && GivesCount(kinds, j, path, number)
  }

  /** `lines` are the files started by the first `k` lines, with the lines these give
      counts for, each with their sum, or with the most that 64 bits hold. */
  ghost predicate ReadAs(kinds: seq<Kind>, k: nat, lines: Lines)
    requires k <= |kinds|
  {
    && (forall path :: path in lines <==> Started(kinds, k, path))
    && (forall path, number :: Covers(lines, path, number) <==> Counted(kinds, k, path, number))
    && (forall path, number :: Covers(lines, path, number) ==>
          lines[path][number] == var total := TotalFor(kinds, k, path, number);
                                 if total < 0xFFFF_FFFF_FFFF_FFFF then total else 0xFFFF_FFFF_FFFF_FFFF)
  }

  lemma RecordNext(kinds: seq<Kind>, k: nat, path: string)
    requires k < |kinds|
    ensures InRecord(kinds, k + 1, path) <==>
            kinds[k] == StartFile(path) || (!kinds[k].StartFile? && !kinds[k].EndRecord? && InRecord(kinds, k, path))
  {
    if InRecord(kinds, k, path) && !kinds[k].StartFile? && !kinds[k].EndRecord? {
      var j :| 0 <= j < k <= |kinds| && kinds[j] == StartFile(path)
               && forall i :: j < i < k ==> !kinds[i].StartFile? && !kinds[i].EndRecord?;
      assert kinds[j] == StartFile(path);
    }
  }

  lemma StartedNext(kinds: seq<Kind>, k: nat, path: string)
    requires k < |kinds|
    ensures Started(kinds, k + 1, path) <==> Started(kinds, k, path) || kinds[k] == StartFile(path)
  {
  }

  lemma CountedNext(kinds: seq<Kind>, k: nat, path: string, number: nat)
    requires k < |kinds|
    ensures Counted(kinds, k + 1, path, number) <==> Counted(kinds, k, path, number) || GivesCount(kinds, k, path, number)
  {
  }

  lemma OneRecord(kinds: seq<Kind>, k: nat, path: string, other: string)
    requires InRecord(kinds, k, path) && InRecord(kinds, k, other)
    ensures path == other
  {
  }

  lemma {:induction false} TotalNone(kinds: seq<Kind>, k: nat, path: string, number: nat)
    requires k <= |kinds| && !Counted(kinds, k, path, number)
    ensures TotalFor(kinds, k, path, number) == 0
  {
    if k > 0 {
      CountedNext(kinds, k - 1, path, number);
      TotalNone(kinds, k - 1, path, number);
    }
  }

  /** What the reader holds after `k` lines. */
  ghost predicate Holds(kinds: seq<Kind>, k: nat, s: State)
    requires k <= |kinds|
  {
    ReadAs(kinds, k, s.lines) && forall path :: s.file == Some(path) <==> InRecord(kinds, k, path)
  }

  lemma FileNext(kinds: seq<Kind>, k: nat, s: State, next: State)
    requires k < |kinds| && Holds(kinds, k, s) && Apply(s, kinds[k]) == Some(next)
    ensures forall path :: next.file == Some(path) <==> InRecord(kinds, k + 1, path)
  {
    forall path ensures next.file == Some(path) <==> InRecord(kinds, k + 1, path) {
      RecordNext(kinds, k, path);
    }
  }

  /** A line without a count leaves every count as it was. */
  lemma NoCountNext(kinds: seq<Kind>, k: nat, lines: Lines, more: Lines)
    requires k < |kinds| && ReadAs(kinds, k, lines) && !kinds[k].Data?
    requires forall path :: path in more <==> path in lines || kinds[k] == StartFile(path)
    requires forall path :: path in more ==> more[path] == if path in lines then lines[path] else map[]
    ensures ReadAs(kinds, k + 1, more)
  {
    forall path ensures path in more <==> Started(kinds, k + 1, path) { StartedNext(kinds, k, path); }
    forall path, number
      ensures Covers(more, path, number) <==> Counted(kinds, k + 1, path, number)
      ensures TotalFor(kinds, k + 1, path, number) == TotalFor(kinds, k, path, number)
      ensures Covers(more, path, number) ==> Covers(lines, path, number) && more[path][number] == lines[path][number]
    {
      CountedNext(kinds, k, path, number);
    }
  }

  lemma CountNext(kinds: seq<Kind>, k: nat, lines: Lines, file: string, path: string, number: nat, more: Lines)
    requires k < |kinds| && ReadAs(kinds, k, lines) && kinds[k].Data? && file in lines && InRecord(kinds, k, file)
    requires var counts := lines[file];
             more == lines[file := counts[kinds[k].line := SaturatingAdd(At(TIMES, counts, kinds[k].line), kinds[k].count)]]
    ensures Covers(more, path, number) <==> Counted(kinds, k + 1, path, number)
    ensures Covers(more, path, number) ==>
              more[path][number] == var total := TotalFor(kinds, k + 1, path, number);
                                    if total < 0xFFFF_FFFF_FFFF_FFFF then total else 0xFFFF_FFFF_FFFF_FFFF
  {
    CountedNext(kinds, k, path, number);
    if GivesCount(kinds, k, path, number) {
      OneRecord(kinds, k, file, path);
      if !Covers(lines, path, number) { TotalNone(kinds, k, path, number); }
    } else {
      assert Covers(more, path, number) <==> Covers(lines, path, number);
      assert Covers(lines, path, number) ==> more[path][number] == lines[path][number];
    }
  }

  lemma DataNext(kinds: seq<Kind>, k: nat, s: State, next: State)
    requires k < |kinds| && Holds(kinds, k, s) && kinds[k].Data? && Apply(s, kinds[k]) == Some(next)
    ensures ReadAs(kinds, k + 1, next.lines)
  {
    var file := s.file.value;
    assert InRecord(kinds, k, file);
    assert Started(kinds, k, file);
    forall path ensures path in next.lines <==> Started(kinds, k + 1, path) { StartedNext(kinds, k, path); }
    forall path, number
      ensures Covers(next.lines, path, number) <==> Counted(kinds, k + 1, path, number)
      ensures Covers(next.lines, path, number) ==>
                next.lines[path][number] == var total := TotalFor(kinds, k + 1, path, number);
                                            if total < 0xFFFF_FFFF_FFFF_FFFF then total else 0xFFFF_FFFF_FFFF_FFFF
    {
      CountNext(kinds, k, s.lines, file, path, number, next.lines);
    }
  }

  /** One more line. */
  lemma HoldsNext(kinds: seq<Kind>, k: nat, s: State)
    requires k < |kinds| && Holds(kinds, k, s)
    ensures Apply(s, kinds[k]).None? <==> Unreadable(kinds, k)
    ensures Apply(s, kinds[k]).Some? ==> Holds(kinds, k + 1, Apply(s, kinds[k]).value)
  {
    if Apply(s, kinds[k]).Some? {
      var next := Apply(s, kinds[k]).value;
      FileNext(kinds, k, s, next);
      if kinds[k].Data? {
        DataNext(kinds, k, s, next);
      } else {
        NoCountNext(kinds, k, s.lines, next.lines);
      }
    }
    assert s.file.Some? ==> InRecord(kinds, k, s.file.value);
  }

  /** The first `k` lines are read unless one of them cannot be, and then as said. */
  lemma {:induction false} RunMeans(kinds: seq<Kind>, k: nat)
    requires k <= |kinds|
    ensures Run(START, kinds[..k]).None? <==> exists j: nat :: j < k && Unreadable(kinds, j)
    ensures Run(START, kinds[..k]).Some? ==> Holds(kinds, k, Run(START, kinds[..k]).value)
  {
    if k > 0 {
      var n := k - 1;
      RunMeans(kinds, n);
      assert kinds[..k][..n] == kinds[..n];
      if Run(START, kinds[..n]).None? {
        RunPrefix(START, kinds[..k], n);
      } else {
        RunSnoc(START, kinds, n);
        HoldsNext(kinds, n, Run(START, kinds[..n]).value);
      }
    }
  }

  /** A text is read exactly when all its lines can be, and then as the sum of what
      its lines say. */
  lemma ReadMeans(text: string, kinds: seq<Kind>)
    requires kinds == Kinds(LinesOf(text))
    ensures Read(text).None? <==> exists k: nat :: k < |kinds| && Unreadable(kinds, k)
    ensures Read(text).Some? ==> ReadAs(kinds, |kinds|, Read(text).value)
  {
    RunMeans(kinds, |kinds|);
    assert kinds[..|kinds|] == kinds;
  }

  /** The line named when a text is not read is the first that cannot be. */
  lemma FirstUnreadable(kinds: seq<Kind>, number: nat)
    requires 0 < number <= |kinds|
    requires Run(START, kinds[..number - 1]).Some? && Run(START, kinds[..number]).None?
    ensures Unreadable(kinds, number - 1) && forall k: nat :: k < number - 1 ==> !Unreadable(kinds, k)
  {
    RunMeans(kinds, number - 1);
    RunMeans(kinds, number);
  }
}
