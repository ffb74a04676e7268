/** When reading an lcov text undoes writing it (xtask/src/coverage.rs). */
module LcovRoundTrip {
  import opened Basics
  import opened Merging
  import opened LineCounts
  import opened Texts
  import opened Lcov
  import opened LcovWriter
  import Decimal
  import CoverageReport

  // ---- Reading a record back ----

  ghost predicate Plain(path: string) {
    OneLine(path) && !EndsWith(path, '\r')
  }

  function DataKinds(counts: Counts, order: seq<nat>): (kinds: seq<Kind>)
    requires forall n :: n in order ==> n in counts
    ensures |kinds| == |order|
  {
    seq(|order|, k requires 0 <= k < |order| => Data(order[k], counts[order[k]]))
  }

  function RecordKinds(path: string, counts: Counts): seq<Kind> {
    [StartFile(path)] + DataKinds(counts, Ascending(counts.Keys)) + [Other, Other, EndRecord]
  }

  lemma DigitsPlain(n: nat)
    ensures ',' !in Decimal.Digits(n) && '\n' !in Decimal.Digits(n) && '\r' !in Decimal.Digits(n)
  {
    var s := Decimal.Digits(n);
    assert forall k :: 0 <= k < |s| ==> Decimal.IsDigit(s[k]);
  }

  lemma {:induction false} PiecesOfPlain(s: string)
    requires ',' !in s
    ensures Pieces(s) == [s]
  {
    if s != [] {
      assert forall k :: 0 <= k < |s[1..]| ==> s[1..][k] in s;
      PiecesOfPlain(s[1..]);
      assert [s[0]] + s[1..] == s;
    }
  }

  lemma {:induction false} PiecesOfTwo(a: string, b: string)
    requires ',' !in a && ',' !in b
    ensures Pieces(a + "," + b) == [a, b]
  {
    var s := a + "," + b;
    if a == [] {
      assert s[1..] == b;
      PiecesOfPlain(b);
    } else {
      assert forall k :: 0 <= k < |a[1..]| ==> a[1..][k] in a;
      PiecesOfTwo(a[1..], b);
      assert s[1..] == a[1..] + "," + b;
      assert [a[0]] + a[1..] == a;
    }
  }

  lemma DataLineKind(line: nat, count: nat)
    requires line < LINE_LIMIT && count <= MOST
    ensures KindOf(DataLine(line, count)) == Data(line, count)
  {
    var a, b := Decimal.Digits(line), Decimal.Digits(count);
    var text := DataLine(line, count);
    assert text[3..] == a + "," + b && text[..3] == "DA:" && text[0] == 'D';
    DigitsPlain(line);
    DigitsPlain(count);
    PiecesOfTwo(a, b);
    Decimal.ParseDigits(line, LINE_LIMIT);
    Decimal.ParseDigits(count, COUNT_LIMIT);
  }

  lemma NoCr(line: string)
    requires !EndsWith(line, '\r')
    ensures WithoutCr(line) == line
  {
  }

  lemma PathLine(path: string)
    ensures KindOf("SF:" + path) == StartFile(path) && WithoutCr("SF:" + path) == "SF:" + WithoutCr(path)
    ensures OneLine("SF:" + path) <==> OneLine(path)
  {
    var line := "SF:" + path;
    assert line[..3] == "SF:" && line[3..] == path;
    if EndsWith(path, '\r') {
      assert line[..|line| - 1] == "SF:" + path[..|path| - 1];
    }
    if '\n' in path {
      var k :| 0 <= k < |path| && path[k] == '\n';
      assert line[3 + k] == '\n';
    }
  }

  lemma DataLinePlain(line: nat, count: nat)
    ensures OneLine(DataLine(line, count)) && !EndsWith(DataLine(line, count), '\r')
  {
    DigitsPlain(line);
    DigitsPlain(count);
    var text := DataLine(line, count);
    assert text[|text| - 1] == Decimal.Digits(count)[|Decimal.Digits(count)| - 1];
  }

  lemma TallyLine(prefix: string, n: nat)
    requires prefix == "LF:" || prefix == "LH:"
    ensures Reads(prefix + Decimal.Digits(n), Other)
  {
    DigitsPlain(n);
    var text := prefix + Decimal.Digits(n);
    assert text[0] == 'L' && text[|text| - 1] == Decimal.Digits(n)[|Decimal.Digits(n)| - 1];
  }

  /** What the reader's 32-bit line numbers and 64-bit counts can hold. */
  ghost predicate SizedCounts(counts: Counts) {
    forall line :: line in counts ==> line < 0x1_0000_0000 && counts[line] <= 0xFFFF_FFFF_FFFF_FFFF
  }

  ghost predicate Sized(lines: Lines) {
    forall path :: path in lines ==> SizedCounts(lines[path])
  }

  lemma DataText(counts: Counts, order: seq<nat>)
    requires SizedCounts(counts) && forall n :: n in order ==> n in counts
    ensures Stripped(DataLines(counts, order)) == DataLines(counts, order) && AllOneLine(DataLines(counts, order))
    ensures Kinds(DataLines(counts, order)) == DataKinds(counts, order)
  {
    forall k | 0 <= k < |order|
      ensures var line := DataLines(counts, order)[k];
              OneLine(line) && WithoutCr(line) == line && KindOf(line) == Data(order[k], counts[order[k]])
    {
      DataLinePlain(order[k], counts[order[k]]);
      NoCr(DataLine(order[k], counts[order[k]]));
      DataLineKind(order[k], counts[order[k]]);
    }
  }

  /** A line that stands for itself, of the kind `kind`. */
  ghost predicate Reads(line: string, kind: Kind) {
    OneLine(line) && WithoutCr(line) == line && KindOf(line) == kind
  }

  lemma EndLine()
    ensures Reads("end_of_record", EndRecord)
  {
    var line := "end_of_record";
    assert line[0] == 'e';
  }

  lemma ThreeLines(a: string, b: string, c: string)
    requires Reads(a, Other) && Reads(b, Other) && Reads(c, EndRecord)
    ensures Stripped([a, b, c]) == [a, b, c] && AllOneLine([a, b, c]) && Kinds([a, b, c]) == [Other, Other, EndRecord]
  {
  }

  lemma EndingText(counts: Counts)
    ensures Stripped(Ending(counts)) == Ending(counts) && AllOneLine(Ending(counts))
    ensures Kinds(Ending(counts)) == [Other, Other, EndRecord]
  {
    var tally := CoverageReport.Tally(counts);
    TallyLine("LF:", tally.0);
    TallyLine("LH:", tally.1);
    EndLine();
    ThreeLines("LF:" + Decimal.Digits(tally.0), "LH:" + Decimal.Digits(tally.1), "end_of_record");
  }

  lemma StrippedSum(a: seq<string>, b: seq<string>)
    ensures Stripped(a + b) == Stripped(a) + Stripped(b)
  {
  }

  /** A record reads as the file whose path it can show. */
  lemma RecordText(path: string, counts: Counts)
    requires SizedCounts(counts)
    ensures Kinds(Stripped(RecordLines(path, counts))) == RecordKinds(WithoutCr(path), counts)
    ensures OneLine(path) ==> AllOneLine(RecordLines(path, counts))
  {
    var head, data, ending := ["SF:" + path], DataLines(counts, Ascending(counts.Keys)), Ending(counts);
    PathLine(path);
    PathLine(WithoutCr(path));
    assert Stripped(head) == ["SF:" + WithoutCr(path)];
    DataText(counts, Ascending(counts.Keys));
    EndingText(counts);
    StrippedSum(head, data);
    StrippedSum(head + data, ending);
    KindsSum(Stripped(head), data);
    KindsSum(Stripped(head) + data, ending);
    assert Kinds(Stripped(head)) == [StartFile(WithoutCr(path))];
  }

  // ---- Running a record ----

  /** The counts of the first `k` lines of `order`. */
  function CountsTo(counts: Counts, order: seq<nat>, k: nat): Counts
    requires k <= |order| && forall n :: n in order ==> n in counts
  {
    map n | n in order[..k] :: counts[n]
  }

  lemma {:induction false} DataRun(path: string, counts: Counts, order: seq<nat>, k: nat)
    requires SizedCounts(counts) && k <= |order| && forall n :: n in order ==> n in counts
    requires forall i, j :: 0 <= i < j < |order| ==> order[i] < order[j]
    ensures Run(State(map[path := map[]], Some(path)), DataKinds(counts, order)[..k]) ==
            Some(State(map[path := CountsTo(counts, order, k)], Some(path)))
  {
    var start := State(map[path := map[]], Some(path));
    var kinds := DataKinds(counts, order);
    if k == 0 {
      assert CountsTo(counts, order, 0) == map[];
    } else {
      DataRun(path, counts, order, k - 1);
      RunSnoc(start, kinds, k - 1);
      CountsToNext(counts, order, k - 1);
      DataStep(path, CountsTo(counts, order, k - 1), order[k - 1], counts[order[k - 1]]);
    }
  }

  lemma CountsToNext(counts: Counts, order: seq<nat>, k: nat)
    requires k < |order| && forall n :: n in order ==> n in counts
    requires forall i, j :: 0 <= i < j < |order| ==> order[i] < order[j]
    ensures CountsTo(counts, order, k + 1) == CountsTo(counts, order, k)[order[k] := counts[order[k]]]
    ensures order[k] !in CountsTo(counts, order, k)
  {
    assert order[..k + 1] == order[..k] + [order[k]];
  }

  lemma DataStep(path: string, before: Counts, line: nat, count: nat)
    requires line !in before && count <= MOST
    ensures Apply(State(map[path := before], Some(path)), Data(line, count)) ==
            Some(State(map[path := before[line := count]], Some(path)))
  {
    var lines: Lines := map[path := before];
    assert lines[path := before[line := count]] == map[path := before[line := count]];
  }

  lemma RecordRun(path: string, counts: Counts)
    requires SizedCounts(counts)
    ensures Run(START, RecordKinds(path, counts)) == Some(State(map[path := counts], None))
  {
    var order := Ascending(counts.Keys);
    var data := DataKinds(counts, order);
    var begun := State(map[path := map[]], Some(path));
    var none: Lines, empty: Counts := map[], map[];
    assert none[path := empty] == map[path := empty];
    assert Run(START, [StartFile(path)]) == Some(begun);
    DataRun(path, counts, order, |order|);
    assert data[..|order|] == data && CountsTo(counts, order, |order|) == counts;
    RunSum(START, [StartFile(path)], data);
    RunSum(START, [StartFile(path)] + data, [Other, Other, EndRecord]);
    EndingRun(State(map[path := counts], Some(path)));
  }

  lemma EndingRun(s: State)
    ensures Run(s, [Other, Other, EndRecord]) == Some(State(s.lines, None))
  {
    var kinds := [Other, Other, EndRecord];
    assert kinds[1..] == [Other, EndRecord] && kinds[1..][1..] == [EndRecord] && kinds[1..][1..][1..] == [];
  }

  // ---- The whole text ----

  function AllKinds(lines: Lines, paths: seq<string>): seq<Kind>
    requires forall path :: path in paths ==> path in lines
  {
    if paths == [] then []
    else
      var n := |paths| - 1;
      AllKinds(lines, paths[..n]) + RecordKinds(WithoutCr(paths[n]), lines[paths[n]])
  }

  lemma {:induction false} AllText(lines: Lines, paths: seq<string>)
    requires Sized(lines) && forall path :: path in paths ==> path in lines && OneLine(path)
    ensures AllOneLine(AllLines(lines, paths)) && Kinds(Stripped(AllLines(lines, paths))) == AllKinds(lines, paths)
  {
    if paths != [] {
      var n := |paths| - 1;
      var before, last := AllLines(lines, paths[..n]), RecordLines(paths[n], lines[paths[n]]);
      AllText(lines, paths[..n]);
      RecordText(paths[n], lines[paths[n]]);
      StrippedSum(before, last);
      KindsSum(Stripped(before), Stripped(last));
    }
  }

  function Restricted(lines: Lines, paths: seq<string>): Lines
    requires forall path :: path in paths ==> path in lines
  {
    map path | path in paths :: lines[path]
  }

  lemma RestrictedFits(lines: Lines, paths: seq<string>)
    requires Sized(lines) && forall path :: path in paths ==> path in lines
    ensures FitLines(Restricted(lines, paths))
  {
    forall path | path in Restricted(lines, paths) ensures FitCounts(Restricted(lines, paths)[path]) {
      assert SizedCounts(lines[path]);
    }
  }

  lemma AddNewFile(lines: Lines, path: string, counts: Counts)
    requires FitLines(lines) && path !in lines && FitCounts(counts)
    ensures Add(lines, map[path := counts]) == lines[path := counts]
  {
    AddFileOnly(lines, path, counts);
    TimesLawful();
    MergeCommutes(TIMES, map[], counts);
    MergeNeutral(TIMES, counts);
  }

  lemma RecordFits(path: string, counts: Counts)
    requires SizedCounts(counts)
    ensures FitKinds(RecordKinds(path, counts))
  {
    var data := DataKinds(counts, Ascending(counts.Keys));
    forall k | 0 <= k < |data| ensures FitKind(data[k]) {
    }
  }

  /** A record read after others adds its file. */
  lemma RecordAfter(lines: Lines, path: string, counts: Counts)
    requires FitLines(lines) && path !in lines && SizedCounts(counts)
    ensures Run(State(lines, None), RecordKinds(path, counts)) == Some(State(lines[path := counts], None))
  {
    RecordRun(path, counts);
    RecordFits(path, counts);
    RunAdds(lines, None, RecordKinds(path, counts));
    AddNewFile(lines, path, counts);
  }

  lemma {:induction false} AllRun(lines: Lines, paths: seq<string>)
    requires Sized(lines) && Distinct(paths)
    requires forall path :: path in paths ==> path in lines && Plain(path)
    ensures Run(START, AllKinds(lines, paths)) == Some(State(Restricted(lines, paths), None))
  {
    if paths == [] {
      assert Restricted(lines, paths) == map[];
    } else {
      var n := |paths| - 1;
      var before, path := paths[..n], paths[n];
      AllRun(lines, before);
      RestrictedFits(lines, before);
      RestrictedSnoc(lines, paths);
      assert path in paths && Plain(path);
      NoCr(path);
      RecordAfter(Restricted(lines, before), path, lines[path]);
      RunSum(START, AllKinds(lines, before), RecordKinds(path, lines[path]));
    }
  }

  lemma RestrictedSnoc(lines: Lines, paths: seq<string>)
    requires paths != [] && Distinct(paths) && forall path :: path in paths ==> path in lines
    ensures var n := |paths| - 1;
            && paths[n] !in paths[..n]
            && Restricted(lines, paths) == Restricted(lines, paths[..n])[paths[n] := lines[paths[n]]]
  {
    var n := |paths| - 1;
    assert paths == paths[..n] + [paths[n]];
  }

  ghost predicate Covers(paths: seq<string>, lines: Lines) {
    multiset(paths) == multiset(lines.Keys) && forall path :: path in paths <==> path in lines
  }

  /** The text of `lines`, its files in the order of `paths`. */
  function Text(lines: Lines, paths: seq<string>): string
    requires forall path :: path in paths ==> path in lines
  {
    Unlines(AllLines(lines, paths))
  }

  lemma TextLines(lines: Lines, paths: seq<string>)
    requires Sized(lines) && forall path :: path in paths ==> path in lines && OneLine(path)
    ensures LinesOf(Text(lines, paths)) == Stripped(AllLines(lines, paths))
    ensures Kinds(LinesOf(Text(lines, paths))) == AllKinds(lines, paths)
  {
    AllText(lines, paths);
    var text := Text(lines, paths);
    LinesOfUnlines(AllLines(lines, paths), "");
    assert text + "" == text;
    assert Stripped(AllLines(lines, paths)) + LinesOf("") == Stripped(AllLines(lines, paths));
  }

  lemma PlainReadsBack(lines: Lines, paths: seq<string>)
    requires Sized(lines) && Covers(paths, lines) && forall path :: path in lines ==> Plain(path)
    ensures Read(Text(lines, paths)) == Some(lines)
  {
    CoverageReport.OnceEach(paths, lines.Keys);
    TextLines(lines, paths);
    AllRun(lines, paths);
    assert Restricted(lines, paths) == lines;
  }

  // ---- Paths that do not survive ----

  /** Every file read was named by a line. */
  lemma {:induction false} KeysAreNamed(s: State, kinds: seq<Kind>, key: string)
    requires Run(s, kinds).Some? && key in Run(s, kinds).value.lines && (s.file.Some? ==> s.file.value in s.lines)
    ensures key in s.lines || StartFile(key) in kinds
    decreases |kinds|
  {
    if kinds != [] {
      var next := Apply(s, kinds[0]).value;
      KeysAreNamed(next, kinds[1..], key);
    }
  }

  lemma NamedByLine(lines: seq<string>, key: string)
    requires StartFile(key) in Kinds(lines)
    ensures "SF:" + key in lines
  {
    var k :| 0 <= k < |lines| && Kinds(lines)[k] == StartFile(key);
    assert lines[k] == "SF:" + lines[k][3..];
  }

  lemma ReadNames(text: string, key: string)
    requires Read(text).Some? && key in Read(text).value
    ensures "SF:" + key in LinesOf(text)
  {
    KeysAreNamed(START, Kinds(LinesOf(text)), key);
    NamedByLine(LinesOf(text), key);
  }

  /** A path with a newline is never read. */
  lemma ReadsOneLine(text: string, key: string)
    requires Read(text).Some? && key in Read(text).value
    ensures OneLine(key)
  {
    ReadNames(text, key);
    LinesAreLines(text);
    PathLine(key);
    var k :| 0 <= k < |LinesOf(text)| && LinesOf(text)[k] == "SF:" + key;
  }

  lemma OnlyPathsStart(path: string, counts: Counts, k: nat)
    requires k < |RecordLines(path, counts)| && "SF:" <= WithoutCr(RecordLines(path, counts)[k])
    ensures RecordLines(path, counts)[k] == "SF:" + path
  {
    StartsWithS(RecordLines(path, counts)[k]);
    if k > 0 { OtherLines(path, counts, k); }
  }

  lemma OtherLines(path: string, counts: Counts, k: nat)
    requires 0 < k < |RecordLines(path, counts)|
    ensures var line := RecordLines(path, counts)[k]; |line| > 0 && line[0] != 'S'
  {
    var lines, data := RecordLines(path, counts), DataLines(counts, Ascending(counts.Keys));
    if k <= |data| {
      assert lines[k] == data[k - 1];
      assert data[k - 1][0] == 'D';
    } else {
      assert lines[k] == Ending(counts)[k - 1 - |data|];
    }
  }

  lemma StartsWithS(line: string)
    requires "SF:" <= WithoutCr(line)
    ensures |line| > 0 && line[0] == 'S'
  {
    assert WithoutCr(line)[..3][0] == 'S';
  }

  /** A file's name in the text written is its path, less a carriage return. */
  lemma {:induction false} WrittenNames(lines: Lines, paths: seq<string>, key: string)
    requires forall path :: path in paths ==> path in lines
    requires "SF:" + key in Stripped(AllLines(lines, paths))
    ensures exists path :: path in paths && key == WithoutCr(path)
  {
    var all := AllLines(lines, paths);
    var k :| 0 <= k < |all| && WithoutCr(all[k]) == "SF:" + key;
    var n := |paths| - 1;
    var before := AllLines(lines, paths[..n]);
    if k < |before| {
      assert Stripped(before)[k] == "SF:" + key;
      WrittenNames(lines, paths[..n], key);
      var path :| path in paths[..n] && key == WithoutCr(path);
      assert path in paths;
    } else {
      assert all[k] == RecordLines(paths[n], lines[paths[n]])[k - |before|];
      assert ("SF:" + key)[..3] == "SF:";
      OnlyPathsStart(paths[n], lines[paths[n]], k - |before|);
      PathLine(paths[n]);
      assert ("SF:" + key)[3..] == key && ("SF:" + WithoutCr(paths[n]))[3..] == WithoutCr(paths[n]);
    }
  }

  lemma {:induction false} NoTrailingCr(lines: Lines, paths: seq<string>, path: string, bound: nat)
    requires Sized(lines) && Covers(paths, lines) && Read(Text(lines, paths)) == Some(lines)
    requires path in lines && forall other :: other in lines ==> OneLine(other) && |other| <= bound
    ensures !EndsWith(path, '\r')
    decreases bound - |path|
  {
    if EndsWith(path, '\r') {
      TextLines(lines, paths);
      ReadNames(Text(lines, paths), path);
      WrittenNames(lines, paths, path);
      var longer :| longer in paths && path == WithoutCr(longer);
      NoTrailingCr(lines, paths, longer, bound);
    }
  }

  lemma {:induction false} LengthBound(paths: set<string>) returns (bound: nat)
    ensures forall path :: path in paths ==> |path| <= bound
    decreases |paths|
  {
    bound := 0;
    if paths != {} {
      var path :| path in paths;
      var rest := LengthBound(paths - {path});
      bound := rest + |path|;
    }
  }

  /** Reading undoes writing exactly when no path holds a newline or ends in a
      carriage return. */
  lemma ReadsBack(lines: Lines, paths: seq<string>)
    requires Sized(lines) && Covers(paths, lines)
    ensures Read(Text(lines, paths)) == Some(lines) <==> forall path :: path in lines ==> Plain(path)
  {
    if forall path :: path in lines ==> Plain(path) {
      PlainReadsBack(lines, paths);
    } else if Read(Text(lines, paths)) == Some(lines) {
      forall path | path in lines ensures OneLine(path) {
        ReadsOneLine(Text(lines, paths), path);
      }
      var bound := LengthBound(lines.Keys);
      forall path | path in lines ensures Plain(path) {
        NoTrailingCr(lines, paths, path, bound);
      }
    }
  }

  // ---- Texts read together ----

  lemma {:induction false} LinesAreShort(text: string, k: nat)
    requires k < |LinesOf(text)|
    ensures |LinesOf(text)[k]| <= |text|
    decreases |text|
  {
    var n := Find(text, '\n');
    if n < |text| && k > 0 { LinesAreShort(text[n + 1..], k - 1); }
  }

  /** What comes before the unfinished last line of a text. */
  lemma {:induction false} LastLine(text: string) returns (head: string, tail: string)
    requires text != "" && !EndsWith(text, '\n')
    ensures text == head + tail && tail != "" && OneLine(tail) && (head == "" || EndsWith(head, '\n'))
    decreases |text|
  {
    var n := Find(text, '\n');
    if n == |text| {
      head, tail := "", text;
    } else {
      var rest;
      rest, tail := LastLine(text[n + 1..]);
      head := text[..n + 1] + rest;
    }
  }

  function Zs(n: nat): (s: string)
    ensures |s| == n && forall k :: 0 <= k < n ==> s[k] == 'z'
  {
    seq(n, k => 'z')
  }

  lemma PathAlone(text: string, path: string)
    requires LinesOf(text) == ["SF:" + path]
    ensures Read(text) == Some(map[path := map[]])
  {
    PathLine(path);
    var none: Lines, empty: Counts := map[], map[];
    assert none[path := empty] == map[path := empty];
    var kinds := [StartFile(path)];
    assert Kinds(LinesOf(text)) == kinds && kinds[1..] == [];
    var next := State(map[path := empty], Some(path));
    assert Apply(START, kinds[0]) == Some(next) && Run(next, []) == Some(next);
    assert Run(START, kinds) == Some(next);
  }

  lemma OneFile(path: string)
    requires Plain(path)
    ensures Read("SF:" + path + "\n") == Some(map[path := map[]])
  {
    var line := "SF:" + path;
    PathLine(path);
    LinesCons(line, "");
    assert line + "\n" + "" == line + "\n";
    NoCr(path);
    assert LinesOf(line + "\n") == [line] + LinesOf("");
    PathAlone(line + "\n", path);
  }

  /** A text the reader takes whose reading, written, does not read back: its last
      line is a path with a carriage return and no newline after it. */
  lemma CarriageReturnLost(name: string, path: string, lines: Lines)
    requires OneLine(name) && path == name + "\r" && lines == map[path := map[]]
    ensures Read("SF:" + path) == Some(lines) && Read(Text(lines, [path])) != Some(lines)
  {
    PathLine(path);
    assert OneLine(path) && Find("SF:" + path, '\n') == |"SF:" + path|;
    assert LinesOf("SF:" + path) == ["SF:" + path];
    PathAlone("SF:" + path, path);
    assert lines.Keys == {path} && multiset([path]) == multiset({path});
    assert EndsWith(path, '\r') && !Plain(path);
    ReadsBack(lines, [path]);
  }

  lemma LastText(head: string, tail: string, path: string)
    ensures (head + tail) + ("SF:" + path + "\n") == head + (tail + ("SF:" + path) + "\n" + "")
  {
  }

  lemma MergedPlain(tail: string, path: string)
    requires OneLine(tail) && Plain(path) && path != ""
    ensures OneLine(tail + ("SF:" + path)) && WithoutCr(tail + ("SF:" + path)) == tail + ("SF:" + path)
  {
    var line := tail + ("SF:" + path);
    PathLine(path);
    assert line[|line| - 1] == path[|path| - 1];
  }

  lemma MergedLine(head: string, tail: string, path: string)
    requires (head == "" || EndsWith(head, '\n')) && OneLine(tail) && Plain(path) && path != ""
    ensures LinesOf((head + tail) + ("SF:" + path + "\n")) == LinesOf(head) + [tail + ("SF:" + path)]
  {
    MergedPlain(tail, path);
    LinesCons(tail + ("SF:" + path), "");
    LastText(head, tail, path);
    LinesOfSum(head, tail + ("SF:" + path) + "\n" + "");
    assert LinesOf("") == [];
  }

  lemma NotNamed(head: string, tail: string, path: string)
    requires |path| > |head| && tail != ""
    ensures "SF:" + path !in LinesOf(head) + [tail + ("SF:" + path)]
  {
    var all := LinesOf(head) + [tail + ("SF:" + path)];
    forall k | 0 <= k < |all| ensures all[k] != "SF:" + path {
      if k < |LinesOf(head)| {
        LinesAreShort(head, k);
        assert |all[k]| < |"SF:" + path|;
      } else {
        assert |all[k]| > |"SF:" + path|;
      }
    }
  }

  /** A text put after an unfinished one can lose its first file. */
  lemma UnfinishedLoses(a: string) returns (b: string)
    requires a != "" && !EndsWith(a, '\n') && Read(a).Some?
    ensures Read(b).Some? && Read(a + b) != Some(Add(Read(a).value, Read(b).value))
  {
    var path := Zs(|a| + 1);
    b := "SF:" + path + "\n";
    assert Plain(path);
    OneFile(path);
    assert path in Add(Read(a).value, Read(b).value);
    var head, tail := LastLine(a);
    MergedLine(head, tail, path);
    NotNamed(head, tail, path);
    if Read(a + b).Some? && path in Read(a + b).value {
      ReadNames(a + b, path);
    }
  }

  /** Reading a text and then any other adds what each says exactly when the
      first is empty or ends in a newline. */
  lemma SumReadsWhenFinished(a: string)
    requires Read(a).Some?
    ensures (forall b :: Read(b).Some? ==> Read(a + b) == Some(Add(Read(a).value, Read(b).value)))
            <==> a == "" || EndsWith(a, '\n')
  {
    if a == "" || EndsWith(a, '\n') {
      forall b | Read(b).Some? ensures Read(a + b) == Some(Add(Read(a).value, Read(b).value)) {
        SumReads(a, b);
      }
    } else {
      var b := UnfinishedLoses(a);
    }
  }
}
