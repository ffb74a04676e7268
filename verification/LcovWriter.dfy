/** The writer of lcov files (xtask/src/coverage.rs), and when reading undoes
    writing. */
module LcovWriter {
  import opened Orders
  import opened LineCounts
  import opened Texts
  import CoverageReport
  import Decimal

  // ---- Lines in order ----

  lemma {:induction false} LeastExists(s: set<nat>) returns (least: nat)
    requires s != {}
    ensures least in s && forall n :: n in s ==> least <= n
    decreases |s|
  {
    var first :| first in s;
    least := first;
    if s != {first} {
      var rest := s - {first};
      assert s == rest + {first};
      var other := LeastExists(rest);
      if other < first { least := other; }
    }
  }

  function Least(s: set<nat>): (least: nat)
    requires s != {}
    ensures least in s && forall n :: n in s ==> least <= n
  {
    assert exists least :: least in s && forall n :: n in s ==> least <= n by {
      var least := LeastExists(s);
    }
    var least :| least in s && forall n :: n in s ==> least <= n;
    least
  }

  /** The elements of `s`, the least first. */
  function Ascending(s: set<nat>): (order: seq<nat>)
    ensures forall n :: n in order <==> n in s
    ensures forall i, j :: 0 <= i < j < |order| ==> order[i] < order[j]
    decreases |s|
  {
    if s == {} then [] else [Least(s)] + Ascending(s - {Least(s)})
  }

  // ---- Writing ----

  function DataLine(line: nat, count: nat): string {
    "DA:" + Decimal.Digits(line) + "," + Decimal.Digits(count)
  }

  function DataLines(counts: Counts, order: seq<nat>): (lines: seq<string>)
    requires forall n :: n in order ==> n in counts
    ensures |lines| == |order|
  {
    seq(|order|, k requires 0 <= k < |order| => DataLine(order[k], counts[order[k]]))
  }

  function Ending(counts: Counts): seq<string> {
    var tally := CoverageReport.Tally(counts);
    ["LF:" + Decimal.Digits(tally.0), "LH:" + Decimal.Digits(tally.1), "end_of_record"]
  }

  /** What is written of one file: a line with its path, one for each of its lines,
      the two totals and an end mark. */
  function RecordLines(path: string, counts: Counts): seq<string> {
    ["SF:" + path] + DataLines(counts, Ascending(counts.Keys)) + Ending(counts)
  }

  function AllLines(lines: Lines, paths: seq<string>): seq<string>
    requires forall path :: path in paths ==> path in lines
  {
    if paths == [] then []
    else
      var n := |paths| - 1;
      AllLines(lines, paths[..n]) + RecordLines(paths[n], lines[paths[n]])
  }

  lemma InThree<T>(first: T, middle: seq<T>, last: seq<T>)
    ensures var all := [first] + middle + last;
            && |all| == 1 + |middle| + |last| && all[0] == first
            && (forall k :: 0 <= k < |middle| ==> all[k + 1] == middle[k])
            && forall k :: 0 <= k < |last| ==> all[1 + |middle| + k] == last[k]
  {
  }

  lemma DataLineAt(counts: Counts, order: seq<nat>, k: nat)
    requires (forall n :: n in order ==> n in counts) && k < |order|
    ensures DataLines(counts, order)[k] == "DA:" + Decimal.Digits(order[k]) + "," + Decimal.Digits(counts[order[k]])
  {
    assert DataLines(counts, order)[k] == DataLine(order[k], counts[order[k]]);
  }

  lemma EndingMeans(counts: Counts)
    ensures Ending(counts) == ["LF:" + Decimal.Digits(|counts|),
                               "LH:" + Decimal.Digits(|set line | line in counts && counts[line] > 0|),
                               "end_of_record"]
  {
    assert CoverageReport.Hit(counts) == set line | line in counts && counts[line] > 0;
  }

  /** A line of a record for each of the lines `order`. */
  ghost predicate DataOf(written: seq<string>, counts: Counts, order: seq<nat>)
    requires forall n :: n in order ==> n in counts
  {
    && |order| < |written|
    && forall k :: 0 <= k < |order| ==>
         written[k + 1] == "DA:" + Decimal.Digits(order[k]) + "," + Decimal.Digits(counts[order[k]])
  }

  /** A record: the path, a line for each count in the order of its lines, and how
      many lines there are and how many of them ran. */
  lemma RecordMeans(path: string, counts: Counts) returns (order: seq<nat>)
    ensures (forall n :: n in order <==> n in counts) && forall i, j :: 0 <= i < j < |order| ==> order[i] < order[j]
    ensures var written := RecordLines(path, counts);
            && |written| == |order| + 4 && written[0] == "SF:" + path && DataOf(written, counts, order)
            && written[|order| + 1] == "LF:" + Decimal.Digits(|counts|)
            && written[|order| + 2] == "LH:" + Decimal.Digits(|set line | line in counts && counts[line] > 0|)
            && written[|order| + 3] == "end_of_record"
  {
    order := Ascending(counts.Keys);
    var data, end := DataLines(counts, order), Ending(counts);
    EndingMeans(counts);
    Recorded("SF:" + path, data, end, counts, order, RecordLines(path, counts));
  }

  lemma Recorded(first: string, data: seq<string>, end: seq<string>, counts: Counts, order: seq<nat>, written: seq<string>)
    requires (forall n :: n in order ==> n in counts) && data == DataLines(counts, order)
    requires written == [first] + data + end && |end| == 3
    ensures |written| == |order| + 4 && written[0] == first && DataOf(written, counts, order)
    ensures written[|order| + 1] == end[0] && written[|order| + 2] == end[1] && written[|order| + 3] == end[2]
  {
    InThree(first, data, end);
    DataWritten(counts, order, written);
    EndWritten(written, |data|, end);
  }

  lemma DataWritten(counts: Counts, order: seq<nat>, written: seq<string>)
    requires (forall n :: n in order ==> n in counts) && |order| < |written|
    requires forall k :: 0 <= k < |order| ==> written[k + 1] == DataLines(counts, order)[k]
    ensures DataOf(written, counts, order)
  {
    forall k | 0 <= k < |order|
      ensures written[k + 1] == "DA:" + Decimal.Digits(order[k]) + "," + Decimal.Digits(counts[order[k]])
    {
      DataLineAt(counts, order, k);
    }
  }

  lemma EndWritten(written: seq<string>, n: nat, end: seq<string>)
    requires |written| == 1 + n + |end| && |end| == 3
    requires forall k :: 0 <= k < |end| ==> written[1 + n + k] == end[k]
    ensures written[n + 1] == end[0] && written[n + 2] == end[1] && written[n + 3] == end[2]
  {
    assert written[1 + n + 0] == end[0] && written[1 + n + 1] == end[1] && written[1 + n + 2] == end[2];
  }

  lemma {:induction false} UnlinesSum(a: seq<string>, b: seq<string>)
    ensures Unlines(a + b) == Unlines(a) + Unlines(b)
  {
    if a == [] {
      assert a + b == b;
    } else {
      assert (a + b)[1..] == a[1..] + b;
      UnlinesSum(a[1..], b);
    }
  }

  /** Writes one line after those `done`. */
  method WriteLine(text: string, line: string, ghost start: string, ghost done: seq<string>) returns (more: string)
    requires text == start + Unlines(done)
    ensures more == start + Unlines(done + [line])
  {
    UnlinesSnoc(done, line);
    more := text + line + "\n";
    assert (start + Unlines(done)) + line + "\n" == start + (Unlines(done) + line + "\n");
  }

  method WriteEach(text: string, lines: seq<string>, ghost start: string, ghost done: seq<string>) returns (more: string)
    requires text == start + Unlines(done)
    ensures more == start + Unlines(done + lines)
  {
    more := text;
    assert done + lines[..0] == done;
    for k := 0 to |lines|
      invariant more == start + Unlines(done + lines[..k])
    {
      more := WriteLine(more, lines[k], start, done + lines[..k]);
      assert (done + lines[..k]) + [lines[k]] == done + lines[..k + 1];
    }
    assert lines[..|lines|] == lines;
  }

  method WriteRecord(text: string, path: string, counts: Counts) returns (more: string)
    ensures more == text + Unlines(RecordLines(path, counts))
  {
    assert text + Unlines([]) == text && [] + ["SF:" + path] == ["SF:" + path];
    more := WriteLine(text, "SF:" + path, text, []);
    var data := DataLines(counts, Ascending(counts.Keys));
    more := WriteEach(more, data, text, ["SF:" + path]);
    more := WriteEach(more, Ending(counts), text, ["SF:" + path] + data);
  }

  /** The paths of the files, each once and in order. */
  ghost predicate InOrder(lines: Lines, paths: seq<string>) {
    && Sorted(StringLe, paths) && multiset(paths) == multiset(lines.Keys)
    && forall path :: path in paths <==> path in lines
  }

  method ToLcov(lines: Lines) returns (text: string)
    ensures exists paths :: InOrder(lines, paths) && text == Unlines(AllLines(lines, paths))
  {
    var order := SortedKeys(lines.Keys);
    assert InOrder(lines, order);
    text := "";
    for k := 0 to |order|
      invariant text == Unlines(AllLines(lines, order[..k]))
    {
      assert order[..k + 1][..k] == order[..k];
      UnlinesSum(AllLines(lines, order[..k]), RecordLines(order[k], lines[order[k]]));
      text := WriteRecord(text, order[k], lines[order[k]]);
    }
    assert order[..|order|] == order;
  }
}
