/** The reader of lcov files (xtask/src/coverage.rs). */
module Lcov {
  import opened Basics
  import opened Merging
  import opened LineCounts
  import opened Texts
  import Decimal

  // ---- What a line says ----

  datatype Kind = StartFile(path: string) | Data(line: nat, count: nat) | Malformed | EndRecord | Other

  const LINE_LIMIT: nat := 0x1_0000_0000
  const COUNT_LIMIT: nat := 0x1_0000_0000_0000_0000

  function DataOf(fields: seq<string>): (kind: Kind)
    ensures kind.Data? ==> kind.line < LINE_LIMIT && kind.count <= MOST
    ensures kind.Data? || kind.Malformed?
  {
    if |fields| < 2 then Malformed
    else
      match (Decimal.Parse(fields[0], LINE_LIMIT), Decimal.Parse(fields[1], COUNT_LIMIT))
      case (Number(line), Number(count)) => Data(line, count)
      case _ => Malformed
  }

  function KindOf(line: string): (kind: Kind)
    ensures kind.Data? ==> kind.line < LINE_LIMIT && kind.count <= MOST
  {
    if "SF:" <= line then StartFile(line[3..])
    else if "DA:" <= line then DataOf(Pieces(line[3..]))
    else if line == "end_of_record" then EndRecord
    else Other
  }

  function Kinds(lines: seq<string>): (kinds: seq<Kind>)
    ensures |kinds| == |lines|
  {
    seq(|lines|, k requires 0 <= k < |lines| => KindOf(lines[k]))
  }

  // ---- Reading ----

  /** The counts so far, and the file whose record is being read. */
  datatype State = State(lines: Lines, file: Option<string>)

  const START: State := State(map[], None)

  function Apply(s: State, kind: Kind): Option<State> {
    match kind
    case StartFile(path) => Some(State(s.lines[path := At(COUNTS, s.lines, path)], Some(path)))
    case Data(line, count) =>
      if s.file.None? then None
      else
        var counts := At(COUNTS, s.lines, s.file.value);
        Some(State(s.lines[s.file.value := counts[line := SaturatingAdd(At(TIMES, counts, line), count)]], s.file))
    case Malformed => None
    case EndRecord => Some(State(s.lines, None))
    case Other => Some(s)
  }

  function Run(s: State, kinds: seq<Kind>): Option<State>
    decreases |kinds|
  {
    if kinds == [] then Some(s)
    else
      match Apply(s, kinds[0])
      case None => None
      case Some(next) => Run(next, kinds[1..])
  }

  /** The counts of an lcov text, or none when a line of it is malformed. */
  function Read(text: string): Option<Lines> {
    match Run(START, Kinds(LinesOf(text)))
    case None => None
    case Some(s) => Some(s.lines)
  }

  datatype Result = Ok(lines: Lines) | Err(number: nat)

  lemma {:induction false} RunSum(s: State, a: seq<Kind>, b: seq<Kind>)
    ensures Run(s, a + b) == match Run(s, a) { case None => None case Some(next) => Run(next, b) }
    decreases |a|
  {
    if a == [] {
      assert a + b == b;
    } else {
      assert (a + b)[1..] == a[1..] + b;
      match Apply(s, a[0])
      case None =>
      case Some(next) => RunSum(next, a[1..], b);
    }
  }

  lemma RunSnoc(s: State, kinds: seq<Kind>, k: nat)
    requires k < |kinds| && Run(s, kinds[..k]).Some?
    ensures Run(s, kinds[..k + 1]) == Apply(Run(s, kinds[..k]).value, kinds[k])
  {
    assert kinds[..k + 1] == kinds[..k] + [kinds[k]];
    RunSum(s, kinds[..k], [kinds[k]]);
    var next := Run(s, kinds[..k]).value;
    assert Run(next, [kinds[k]]) == Apply(next, kinds[k]);
  }

  lemma {:induction false} RunPrefix(s: State, kinds: seq<Kind>, k: nat)
    requires k <= |kinds| && Run(s, kinds[..k]).None?
    ensures Run(s, kinds).None?
  {
    assert kinds == kinds[..k] + kinds[k..];
    RunSum(s, kinds[..k], kinds[k..]);
  }

  /** What one line does to the counts and the file. */
  method ReadLine(lines: Lines, file: Option<string>, line: string) returns (ok: bool, more: Lines, newFile: Option<string>)
    ensures Apply(State(lines, file), KindOf(line)) == if ok then Some(State(more, newFile)) else None
  {
    ok, more, newFile := true, lines, file;
    if "SF:" <= line {
      var path := line[3..];
      assert path in lines ==> lines[path := lines[path]] == lines;
      if path !in lines { more := lines[path := map[]]; }
      newFile := Some(path);
    } else if "DA:" <= line {
      var data := DataOf(Pieces(line[3..]));
      if data.Malformed? || file.None? { ok := false; return; }
      var counts: Counts := if file.value in lines then lines[file.value] else map[];
      var before := if data.line in counts then counts[data.line] else 0;
      more := lines[file.value := counts[data.line := SaturatingAdd(before, data.count)]];
    } else if line == "end_of_record" {
      newFile := None;
    }
  }

  /** Reads `text`, or names the first line that cannot be read. */
  method ParseLcov(text: string) returns (r: Result)
    ensures r.Ok? ==> Read(text) == Some(r.lines)
    ensures r.Err? ==> Read(text).None? && 0 < r.number <= |LinesOf(text)|
                       && Run(START, Kinds(LinesOf(text))[..r.number - 1]).Some?
                       && Run(START, Kinds(LinesOf(text))[..r.number]).None?
  {
    var all := LinesOf(text);
    ghost var kinds := Kinds(all);
    var lines: Lines, file: Option<string> := map[], None;
    for k := 0 to |all|
      invariant Run(START, kinds[..k]) == Some(State(lines, file))
    {
      RunSnoc(START, kinds, k);
      var ok;
      ok, lines, file := ReadLine(lines, file, all[k]);
      if !ok {
        RunPrefix(START, kinds, k + 1);
        return Err(k + 1);
      }
    }
    assert kinds[..|all|] == kinds;
    r := Ok(lines);
  }

  // ---- Reading adds ----

  function Then(lines: Lines, r: Option<State>): Option<State> {
    match r
    case None => None
    case Some(s) => Some(State(Add(lines, s.lines), s.file))
  }

  ghost predicate FitKind(kind: Kind) {
    kind.Data? ==> kind.count <= MOST
  }

  ghost predicate FitKinds(kinds: seq<Kind>) {
    forall k :: 0 <= k < |kinds| ==> FitKind(kinds[k])
  }

  lemma KindsFit(lines: seq<string>)
    ensures FitKinds(Kinds(lines))
  {
  }

  lemma AddFileOnly(lines: Lines, path: string, counts: Counts)
    requires FitLines(lines)
    ensures Add(lines, map[path := counts]) == lines[path := AddCounts(At(COUNTS, lines, path), counts)]
  {
    CountsLawful();
    MergeSingle(COUNTS, lines, path, counts);
  }

  lemma AddCountOnly(counts: Counts, line: nat, count: nat)
    requires FitCounts(counts)
    ensures AddCounts(counts, map[line := count]) == counts[line := SaturatingAdd(At(TIMES, counts, line), count)]
  {
    TimesLawful();
    MergeSingle(TIMES, counts, line, count);
  }

  lemma AddNothing(lines: Lines)
    requires FitLines(lines)
    ensures Add(lines, map[]) == lines
  {
    CountsLawful();
    MergeNeutral(COUNTS, lines);
  }

  lemma StartAdds(lines: Lines, file: Option<string>, path: string)
    requires FitLines(lines)
    ensures Apply(State(lines, file), StartFile(path)) == Then(lines, Apply(State(map[], file), StartFile(path)))
    ensures Apply(State(map[], file), StartFile(path)) == Some(State(map[path := map[]], Some(path)))
  {
    AddFileOnly(lines, path, map[]);
    CountsLawful();
    assert NeutralAt(COUNTS, At(COUNTS, lines, path));
    var empty: Counts, none: Lines := map[], map[];
    assert none[path := empty] == map[path := empty];
  }

  lemma DataAlone(path: string, line: nat, count: nat)
    requires count <= MOST
    ensures Apply(State(map[], Some(path)), Data(line, count)) == Some(State(map[path := map[line := count]], Some(path)))
  {
    var empty: Counts, none: Lines := map[], map[];
    assert empty[line := count] == map[line := count] && none[path := map[line := count]] == map[path := map[line := count]];
  }

  lemma DataAdds(lines: Lines, path: string, line: nat, count: nat)
    requires FitLines(lines) && count <= MOST
    ensures Apply(State(lines, Some(path)), Data(line, count)) == Some(State(Add(lines, map[path := map[line := count]]), Some(path)))
  {
    AddCountOnly(At(COUNTS, lines, path), line, count);
    AddFileOnly(lines, path, map[line := count]);
  }

  /** One line adds what it would to nothing. */
  lemma ApplyAdds(lines: Lines, file: Option<string>, kind: Kind)
    requires FitLines(lines) && FitKind(kind)
    ensures Apply(State(lines, file), kind) == Then(lines, Apply(State(map[], file), kind))
    ensures Apply(State(map[], file), kind).Some? ==> FitLines(Apply(State(map[], file), kind).value.lines)
  {
    match kind
    case StartFile(path) => StartAdds(lines, file, path);
    case Data(line, count) =>
      if file.Some? {
        DataAlone(file.value, line, count);
        DataAdds(lines, file.value, line, count);
      }
    case _ => AddNothing(lines);
  }

  lemma AddFits(a: Lines, b: Lines)
    requires FitLines(a) && FitLines(b)
    ensures FitLines(Add(a, b))
  {
    CountsLawful();
    MergeFits(COUNTS, a, b);
  }

  lemma AddAssociative(a: Lines, b: Lines, c: Lines)
    ensures Add(Add(a, b), c) == Add(a, Add(b, c))
  {
    CountsLawful();
    MergeAssociative(COUNTS, a, b, c);
  }

  /** So do any lines. */
  lemma {:induction false} RunAdds(lines: Lines, file: Option<string>, kinds: seq<Kind>)
    requires FitLines(lines) && FitKinds(kinds)
    ensures Run(State(lines, file), kinds) == Then(lines, Run(State(map[], file), kinds))
    ensures Run(State(map[], file), kinds).Some? ==> FitLines(Run(State(map[], file), kinds).value.lines)
    decreases |kinds|, 0
  {
    if kinds == [] {
      AddNothing(lines);
    } else {
      ApplyAdds(lines, file, kinds[0]);
      match Apply(State(map[], file), kinds[0])
      case None =>
      case Some(one) => RunAddsAfter(lines, one, kinds[1..]);
    }
  }

  lemma {:induction false} RunAddsAfter(lines: Lines, one: State, rest: seq<Kind>)
    requires FitLines(lines) && FitLines(one.lines) && FitKinds(rest)
    ensures Run(State(Add(lines, one.lines), one.file), rest) == Then(lines, Run(one, rest))
    ensures Run(one, rest).Some? ==> FitLines(Run(one, rest).value.lines)
    decreases |rest|, 1
  {
    AddFits(lines, one.lines);
    RunAdds(Add(lines, one.lines), one.file, rest);
    RunAdds(one.lines, one.file, rest);
    match Run(State(map[], one.file), rest)
    case None =>
    case Some(more) =>
      AddAssociative(lines, one.lines, more.lines);
      AddFits(one.lines, more.lines);
  }

  /** What is read from nothing does not need the file before it. */
  lemma {:induction false} FileDoesNotMatter(lines: Lines, file: Option<string>, kinds: seq<Kind>)
    requires Run(State(lines, None), kinds).Some?
    ensures Run(State(lines, file), kinds).Some?
    ensures Run(State(lines, file), kinds).value.lines == Run(State(lines, None), kinds).value.lines
    decreases |kinds|
  {
    if kinds != [] && kinds[0].Other? {
      FileDoesNotMatter(lines, file, kinds[1..]);
    }
  }

  lemma KindsSum(a: seq<string>, b: seq<string>)
    ensures Kinds(a + b) == Kinds(a) + Kinds(b)
  {
  }

  /** Reading one text after another adds what each says, when the first is
      empty or ends in a newline. */
  lemma SumReads(a: string, b: string)
    requires a == "" || EndsWith(a, '\n')
    requires Read(a).Some? && Read(b).Some?
    ensures Read(a + b) == Some(Add(Read(a).value, Read(b).value))
  {
    var x, y := Kinds(LinesOf(a)), Kinds(LinesOf(b));
    LinesOfSum(a, b);
    KindsSum(LinesOf(a), LinesOf(b));
    RunSum(START, x, y);
    KindsFit(LinesOf(a));
    KindsFit(LinesOf(b));
    RunAdds(map[], None, x);
    var first := Run(START, x).value;
    RunAdds(first.lines, first.file, y);
    FileDoesNotMatter(map[], first.file, y);
  }
}
