/** Where what the scan of a document finds stands in the document
    (xtask/src/docs.rs).  `kept` are the document's lines with those of fenced
    blocks left empty; a line of it that is not empty is the document's own. */
module ScanPlaces {
  import opened Basics
  import opened Spaces
  import opened Texts
  import opened Scan
  import opened LineForms

  // ---- Counting lines ----

  lemma {:induction false} NewlinesSum(a: string, b: string)
    ensures Newlines(a + b) == Newlines(a) + Newlines(b)
    decreases |b|
  {
    if b == "" {
      assert a + b == a;
    } else {
      var n := |b| - 1;
      assert (a + b)[..|a| + n] == a + b[..n];
      NewlinesSum(a, b[..n]);
    }
  }

  lemma LineAdvances(s: string, a: nat, b: nat)
    requires a <= b <= |s|
    ensures LineOf(s, b) == LineOf(s, a) + Newlines(s[a..b])
  {
    assert s[..b] == s[..a] + s[a..b];
    NewlinesSum(s[..a], s[a..b]);
  }

  lemma {:induction false} NoNewlines(s: string)
    requires '\n' !in s
    ensures Newlines(s) == 0
  {
    if s != "" { NoNewlines(s[..|s| - 1]); }
  }

  lemma NextLine(s: string, at: nat)
    requires at < |s|
    ensures LineOf(s, at + 1) == LineOf(s, at) + if s[at] == '\n' then 1 else 0
  {
    assert s[..at + 1][..at] == s[..at];
  }

  lemma SameLine(s: string, a: nat, b: nat)
    requires a <= b <= |s| && '\n' !in s[a..b]
    ensures LineOf(s, b) == LineOf(s, a)
  {
    LineAdvances(s, a, b);
    NoNewlines(s[a..b]);
  }

  // ---- Lines and columns ----

  /** The document from column `c` of line `i` on. */
  function From(lines: seq<string>, i: nat, c: nat): string
    requires i < |lines| && c <= |lines[i]|
  {
    lines[i][c..] + "\n" + Unlines(lines[i + 1..])
  }

  /** Every place of a text is a column of a line. */
  lemma {:induction false} Located(lines: seq<string>, at: nat) returns (c: nat)
    requires AllOneLine(lines) && at < |Unlines(lines)|
    ensures var s, i := Unlines(lines), Newlines(Unlines(lines)[..at]);
            && i < |lines| && c <= |lines[i]| && s[at..] == From(lines, i, c)
            && (LineStarts(s, at) <==> c == 0)
  {
    var first, rest := lines[0], Unlines(lines[1..]);
    var text := first + "\n" + rest;
    if at <= |first| {
      c := at;
      assert text[..at] == first[..at];
      NoNewlines(first[..at]);
      assert text[at..] == first[at..] + "\n" + rest;
      assert at > 0 ==> text[at - 1] == first[at - 1] && first[at - 1] in first;
    } else {
      var k := at - |first| - 1;
      c := Located(lines[1..], k);
      LocatedNext(first, rest, k);
      var i := Newlines(rest[..k]);
      assert lines[1..][i + 1..] == lines[i + 2..];
    }
  }

  lemma LocatedNext(first: string, rest: string, k: nat)
    requires '\n' !in first && k < |rest|
    ensures var text, at := first + "\n" + rest, |first| + 1 + k;
            && Newlines(text[..at]) == 1 + Newlines(rest[..k]) && text[at..] == rest[k..]
            && (LineStarts(text, at) <==> LineStarts(rest, k))
  {
    var text, at := first + "\n" + rest, |first| + 1 + k;
    assert text[..at] == (first + "\n") + rest[..k];
    NewlinesSum(first + "\n", rest[..k]);
    NewlinesSum(first, "\n");
    NoNewlines(first);
    assert "\n"[..0] == "" && Newlines("\n") == 1;
    assert k > 0 ==> text[at - 1] == rest[k - 1];
  }

  /** Some lines are left empty; the others are as they were. */
  ghost predicate Blanked(lines: seq<string>, kept: seq<string>) {
    && |kept| == |lines| && AllOneLine(kept)
    && forall i :: 0 <= i < |kept| && kept[i] != "" ==> kept[i] == lines[i]
  }

  lemma FromFirst(lines: seq<string>, i: nat, c: nat)
    requires i < |lines| && c <= |lines[i]|
    ensures |From(lines, i, c)| > 0 && From(lines, i, c)[0] == if c < |lines[i]| then lines[i][c] else '\n'
  {
  }

  /** A place that holds something is a column of a line that is not empty. */
  lemma Placed(kept: seq<string>, s: string, at: nat) returns (c: nat)
    requires AllOneLine(kept) && s == Unlines(kept) && at < |s| && s[at] != '\n'
    ensures var i := LineOf(s, at) - 1;
            && i < |kept| && c < |kept[i]| && kept[i][c] == s[at] && s[at..] == From(kept, i, c)
            && (LineStarts(s, at) <==> c == 0)
  {
    c := Located(kept, at);
    FromFirst(kept, LineOf(s, at) - 1, c);
    assert s[at..][0] == s[at];
  }

  /** What has no newline is in the first line. */
  lemma PrefixOfLine(w: string, x: string, y: string)
    requires '\n' !in w
    ensures w <= x + "\n" + y <==> w <= x
  {
    var s := x + "\n" + y;
    assert s[|x|] == '\n';
    assert |w| <= |x| ==> s[..|w|] == x[..|w|];
    assert |w| > |x| ==> w[|x|] in w;
  }

  // ---- Links ----

  /** A link's destination in brackets stands at column `c`. */
  predicate LinkAt(line: string, c: nat, target: string) {
    c < |line| && "](" + target + ")" <= line[c..]
  }

  ghost predicate HasLink(line: string, target: string) {
    exists c :: LinkAt(line, c, target)
  }

  /** A link's destination, in its brackets, is at `at`. */
  ghost predicate LinkFound(s: string, at: nat, target: string) {
    at < |s| && s[at] != '\n' && "](" + target + ")" <= s[at..] && '\n' !in "](" + target + ")"
  }

  lemma DestinationFound(s: string, at: nat)
    requires at + 1 < |s| && s[at] == ']' && s[at + 1] == '('
    requires DestinationEnd(s, at + 2) < |s| && s[DestinationEnd(s, at + 2)] == ')'
    ensures LinkFound(s, at, s[at + 2..DestinationEnd(s, at + 2)])
  {
    var end := DestinationEnd(s, at + 2);
    var w := "](" + s[at + 2..end] + ")";
    assert w == s[at..end + 1];
    assert s[at..end + 1] == s[at..][..|w|];
  }

  lemma LinkStands(kept: seq<string>, s: string, at: nat, target: string)
    requires AllOneLine(kept) && s == Unlines(kept) && LinkFound(s, at, target)
    ensures var i := LineOf(s, at) - 1; i < |kept| && kept[i] != "" && HasLink(kept[i], target)
  {
    var i := LineOf(s, at) - 1;
    var c := Placed(kept, s, at);
    LinkOnLine(kept[i], c, Unlines(kept[i + 1..]), target, s[at..]);
  }

  lemma LinkOnLine(line: string, c: nat, rest: string, target: string, text: string)
    requires c < |line| && text == line[c..] + "\n" + rest
    requires var w := "](" + target + ")"; w <= text && '\n' !in w
    ensures HasLink(line, target)
  {
    PrefixOfLine("](" + target + ")", line[c..], rest);
    assert LinkAt(line, c, target);
  }

  // ---- Definitions ----

  lemma FirstLine(s: string, at: nat, line: string, rest: string)
    requires at <= |s| && s[at..] == line + "\n" + rest && OneLine(line)
    ensures LineFrom(s, at) == line
  {
    assert forall k :: 0 <= k < |line| ==> s[at..][k] == line[k] && line[k] in line;
    NewlineIs(s[at..], |line|);
    assert s[at..][..|line|] == line;
  }

  /** What starts a line is its whole line. */
  lemma WholeLine(kept: seq<string>, s: string, at: nat)
    requires AllOneLine(kept) && s == Unlines(kept) && at < |s| && s[at] != '\n' && LineStarts(s, at)
    ensures var i := LineOf(s, at) - 1; i < |kept| && kept[i] != "" && LineFrom(s, at) == kept[i]
  {
    var c := Placed(kept, s, at);
    var i := LineOf(s, at) - 1;
    assert kept[i][0..] == kept[i] && OneLine(kept[i]);
    FirstLine(s, at, kept[i], Unlines(kept[i + 1..]));
  }

  lemma TargetNeedsText(line: string)
    ensures DefinitionTarget(line).Some? ==> line != ""
  {
  }

  lemma DefinitionPlace(s: string, at: nat)
    requires at < |s| && LineFrom(s, at) != ""
    ensures s[at] != '\n'
  {
    assert LineFrom(s, at)[0] == s[at..][0];
  }

  /** A definition found is one of that line of the document. */
  lemma DefinitionStands(kept: seq<string>, s: string, at: nat, target: string)
    requires AllOneLine(kept) && s == Unlines(kept) && at < |s| && LineStarts(s, at)
    requires DefinitionTarget(LineFrom(s, at)) == Some(target)
    ensures var i := LineOf(s, at) - 1; i < |kept| && kept[i] != "" && IsDefinition(kept[i], target)
  {
    TargetNeedsText(LineFrom(s, at));
    DefinitionPlace(s, at);
    WholeLine(kept, s, at);
    DefinitionMeans(LineFrom(s, at), target);
  }

  // ---- What code spans cover ----

  ghost predicate TicksFrom(s: string, at: nat, n: nat) {
    at + n <= |s| && forall k :: at <= k < at + n ==> s[k] == '`'
  }

  ghost predicate OneParagraph(s: string, from: nat, to: nat) {
    forall p :: from <= p < to ==> !EndsParagraph(s, p)
  }

  /** A span from the ticks at `at` to as many at `close`. */
  ghost predicate Spans(s: string, at: nat, ticks: nat, close: nat) {
    && ticks > 0 && at + ticks <= close && TicksFrom(s, at, ticks) && TicksFrom(s, close, ticks)
    && OneParagraph(s, at + ticks, close)
  }

  lemma CloseSpans(s: string, at: nat, ticks: nat, close: nat)
    requires at < |s| && s[at] == '`' && ticks == RunLength(s, at, '`') && IsClose(s, at + ticks, ticks, close)
    ensures Spans(s, at, ticks, close)
  {
  }

  lemma EmptyLineEnds(s: string, p: nat)
    requires p + 1 < |s| && s[p] == '\n' && s[p + 1] == '\n'
    ensures EndsParagraph(s, p)
  {
    assert s[p + 1..][0] == '\n';
    assert LineFrom(s, p + 1) == "";
  }

  /** The place is on a line that is not left empty. */
  ghost predicate OnText(kept: seq<string>, s: string, q: nat) {
    q <= |s| && LineOf(s, q) <= |kept| && kept[LineOf(s, q) - 1] != ""
  }

  /** No part of a code span is on an empty line, however many lines it takes. */
  lemma SpanOnText(kept: seq<string>, s: string, at: nat, ticks: nat, close: nat, q: nat)
    requires AllOneLine(kept) && s == Unlines(kept) && Spans(s, at, ticks, close) && at <= q < close + ticks
    ensures OnText(kept, s, q)
  {
    if s[q] == '\n' {
      var c := Located(kept, q);
      if c == 0 { EmptyLineEnds(s, q - 1); }
    } else {
      var c := Placed(kept, s, q);
    }
  }

  lemma StillOnText(kept: seq<string>, s: string, p: nat, q: nat)
    requires 0 < p <= q <= |s| && s[p - 1] != '\n' && '\n' !in s[p..q] && OnText(kept, s, p - 1)
    ensures OnText(kept, s, q)
  {
    assert s[p - 1..q] == [s[p - 1]] + s[p..q];
    SameLine(s, p - 1, q);
  }

  lemma {:induction false} EndsInNewline(lines: seq<string>)
    requires lines != []
    ensures EndsWith(Unlines(lines), '\n')
  {
    if |lines| > 1 { EndsInNewline(lines[1..]); }
  }

  /** The end of the line that `p` is on. */
  lemma LineEnd(s: string, p: nat) returns (end: nat)
    requires p < |s| && EndsWith(s, '\n')
    ensures p <= end < |s| && s[end] == '\n' && '\n' !in s[p..end]
  {
    assert s[p..][|s| - p - 1] == '\n';
    end := p + Find(s[p..], '\n');
    assert s[p..end] == s[p..][..end - p];
    assert s[end] == s[p..][end - p];
  }

  ghost predicate AllOnText(kept: seq<string>, s: string, from: nat, to: nat) {
    forall q :: from <= q < to ==> OnText(kept, s, q)
  }

  /** Where the line ends that a code span closes on. */
  lemma SpanEnd(kept: seq<string>, s: string, at: nat, ticks: nat, close: nat) returns (end: nat)
    requires AllOneLine(kept) && s == Unlines(kept) && Spans(s, at, ticks, close)
    ensures close + ticks <= end < |s| && s[end] == '\n' && AllOnText(kept, s, at, end + 1)
  {
    var p := close + ticks;
    EndsInNewline(kept);
    end := LineEnd(s, p);
    forall q | at <= q < end + 1 ensures OnText(kept, s, q) {
      if q < p {
        SpanOnText(kept, s, at, ticks, close, q);
      } else {
        SpanOnText(kept, s, at, ticks, close, p - 1);
        assert s[p..q] == s[p..end][..q - p];
        StillOnText(kept, s, p, q);
      }
    }
  }

  // ---- The same in the document ----

  /** As far as no line is left empty the texts are the same. */
  lemma {:induction false} SameText(lines: seq<string>, kept: seq<string>, n: nat)
    requires Blanked(lines, kept) && n <= |Unlines(kept)| && AllOnText(kept, Unlines(kept), 0, n)
    ensures n <= |Unlines(lines)| && Unlines(lines)[..n] == Unlines(kept)[..n]
  {
    if n > 0 {
      var first, rest := kept[0], Unlines(kept[1..]);
      var s := Unlines(kept);
      assert OnText(kept, s, 0) && s[..0] == "";
      if n > |first| + 1 {
        var m := n - |first| - 1;
        forall q | 0 <= q < m ensures OnText(kept[1..], rest, q) {
          LocatedNext(first, rest, q);
          assert OnText(kept, s, |first| + 1 + q);
        }
        SameText(lines[1..], kept[1..], m);
        assert s[..n] == first + "\n" + rest[..m];
        assert Unlines(lines)[..n] == first + "\n" + Unlines(lines[1..])[..m];
      }
    }
  }

  lemma FromLater(lines: seq<string>, i: nat, c: nat)
    requires i < |lines| && c <= |lines[i]|
    ensures From(lines, i, c) == From(lines[i..], 0, c)
  {
    assert lines[i..][1..] == lines[i + 1..];
  }

  lemma Halves(lines: seq<string>, c: nat)
    requires lines != [] && c <= |lines[0]|
    ensures Unlines(lines) == lines[0][..c] + From(lines, 0, c)
  {
    assert lines[0] == lines[0][..c] + lines[0][c..];
  }

  lemma SameFrom(lines: seq<string>, kept: seq<string>, c: nat, n: nat)
    requires Blanked(lines, kept) && lines != [] && kept[0] != "" && c <= |kept[0]| && c + n <= |Unlines(kept)|
    requires AllOnText(kept, Unlines(kept), 0, c + n)
    ensures n <= |From(lines, 0, c)| && n <= |From(kept, 0, c)| && From(lines, 0, c)[..n] == From(kept, 0, c)[..n]
  {
    SameText(lines, kept, c + n);
    Halves(kept, c);
    Halves(lines, c);
    SameRest(Unlines(lines), lines[0][..c], From(lines, 0, c), Unlines(kept), kept[0][..c], From(kept, 0, c), n);
  }

  lemma SameRest(s: string, front: string, rest: string, t: string, start: string, end: string, n: nat)
    requires s == front + rest && t == start + end && |front| == |start| && n <= |end|
    requires |front| + n <= |s| && s[..|front| + n] == t[..|front| + n]
    ensures n <= |rest| && rest[..n] == end[..n]
  {
    var c := |front|;
    forall k | 0 <= k < n ensures rest[k] == end[k] {
      assert s[..c + n][c + k] == rest[k] && t[..c + n][c + k] == end[k];
    }
  }

  lemma NewlinesAfter(s: string, at: nat, front: string, text: string, q: nat)
    requires at <= |s| && '\n' !in front && text == front + s[at..] && q <= |text|
    ensures if q < |front| then Newlines(text[..q]) == 0
            else Newlines(text[..q]) == LineOf(s, at + (q - |front|)) - LineOf(s, at)
  {
    if q < |front| {
      assert text[..q] == front[..q];
      NoNewlines(front[..q]);
    } else {
      var p := at + (q - |front|);
      assert text[..q] == front + s[at..p];
      NewlinesSum(front, s[at..p]);
      NoNewlines(front);
      LineAdvances(s, at, p);
    }
  }

  /** Places of the text are places of its lines from `i` on. */
  lemma OnLaterText(kept: seq<string>, s: string, at: nat, n: nat, i: nat, c: nat, q: nat)
    requires AllOneLine(kept) && at + n <= |s| && i == LineOf(s, at) - 1 && i < |kept| && kept[i] != ""
    requires c <= |kept[i]| && s[at..] == From(kept, i, c) && q < c + n && AllOnText(kept, s, at, at + n)
    ensures OnText(kept[i..], Unlines(kept[i..]), q)
  {
    FromLater(kept, i, c);
    Halves(kept[i..], c);
    assert OneLine(kept[i]);
    NewlinesAfter(s, at, kept[i][..c], Unlines(kept[i..]), q);
    if q >= c {
      LineAdvances(s, at, at + (q - c));
      assert OnText(kept, s, at + (q - c));
    }
  }

  /** What the text has from `at` on stands in the document, on the line and at
      the column of `at`, as far as no line is left empty. */
  lemma InDocument(lines: seq<string>, kept: seq<string>, s: string, at: nat, n: nat, i: nat, c: nat)
    requires Blanked(lines, kept) && at + n <= |s| && i == LineOf(s, at) - 1 && i < |kept|
    requires c < |kept[i]| && s[at..] == From(kept, i, c) && AllOnText(kept, s, at, at + n)
    ensures kept[i] == lines[i] && n <= |From(lines, i, c)| && From(lines, i, c)[..n] == s[at..at + n]
  {
    var later, text := lines[i..], kept[i..];
    FromLater(lines, i, c);
    FromLater(kept, i, c);
    Halves(text, c);
    forall q | 0 <= q < c + n ensures OnText(text, Unlines(text), q) {
      OnLaterText(kept, s, at, n, i, c, q);
    }
    assert Blanked(later, text);
    SameFrom(later, text, c, n);
    assert s[at..at + n] == s[at..][..n];
  }

  // ---- Code spans ----

  function Ticks(n: nat): string {
    seq(n, _ => '`')
  }

  /** A code span's text between its ticks stands at column `c` of line `i`. */
  predicate SpanAt(lines: seq<string>, i: nat, c: nat, ticks: nat, span: string) {
    i < |lines| && c < |lines[i]| && ticks > 0 && Ticks(ticks) + span + Ticks(ticks) <= From(lines, i, c)
  }

  /** And the words that call it planned follow it. */
  predicate PlannedAt(lines: seq<string>, i: nat, c: nat, ticks: nat, span: string) {
    i < |lines| && c <= |lines[i]| && Ticks(ticks) + span + Ticks(ticks) + " (planned)" <= From(lines, i, c)
  }

  ghost predicate HasSpan(lines: seq<string>, i: nat, text: string, planned: bool) {
    exists c, ticks, span :: SpanAt(lines, i, c, ticks, span) && text == Trim(span)
                             && (planned <==> PlannedAt(lines, i, c, ticks, span))
  }

  lemma ThreeParts(s: string, a: nat, b: nat, c: nat, d: nat)
    requires a <= b <= c <= d <= |s|
    ensures s[a..b] + s[b..c] + s[c..d] == s[a..d]
  {
  }

  lemma RunIsTicks(s: string, at: nat, n: nat)
    requires TicksFrom(s, at, n)
    ensures s[at..at + n] == Ticks(n)
  {
  }

  lemma SpanWritten(s: string, at: nat, ticks: nat, close: nat)
    requires Spans(s, at, ticks, close)
    ensures Ticks(ticks) + s[at + ticks..close] + Ticks(ticks) == s[at..close + ticks]
  {
    RunIsTicks(s, at, ticks);
    RunIsTicks(s, close, ticks);
    ThreeParts(s, at, at + ticks, close, close + ticks);
  }

  /** The same text to the end of a line is followed by the same words. */
  lemma PlannedAlike(w: string, x: string, y: string, z: string, planned: string)
    requires '\n' !in planned
    ensures planned <= x + "\n" + y <==> w + planned <= w + (x + "\n" + z)
  {
    var d := x + "\n" + z;
    PrefixOfLine(planned, x, y);
    PrefixOfLine(planned, x, z);
    if w + planned <= w + d {
      assert planned == (w + planned)[|w|..] && (w + d)[..|w + planned|][|w|..] == d[..|planned|];
    }
    if planned <= d {
      assert (w + d)[..|w + planned|] == w + d[..|planned|];
    }
  }

  /** A text that starts as `s` does from `at` to the end of `p`'s line. */
  lemma StartsAlike(s: string, at: nat, p: nat, end: nat, d: string, planned: string)
    requires at <= p <= end < |s| && s[end] == '\n' && end + 1 - at <= |d| && d[..end + 1 - at] == s[at..end + 1]
    requires '\n' !in planned
    ensures s[at..p] <= d && (planned <= s[p..] <==> s[at..p] + planned <= d)
  {
    var n, w, x := end + 1 - at, s[at..p], s[p..end];
    assert s[at..end + 1] == w + (x + "\n");
    assert s[p..] == x + "\n" + s[end + 1..];
    assert d == d[..n] + d[n..] && (w + (x + "\n")) + d[n..] == w + (x + "\n" + d[n..]);
    PlannedAlike(w, x, s[end + 1..], d[n..], planned);
  }

  lemma SpanStands(lines: seq<string>, i: nat, c: nat, ticks: nat, span: string, w: string, planned: bool)
    requires i < |lines| && c < |lines[i]| && ticks > 0 && w == Ticks(ticks) + span + Ticks(ticks)
    requires w <= From(lines, i, c) && (planned <==> w + PLANNED <= From(lines, i, c))
    ensures HasSpan(lines, i, Trim(span), planned)
  {
    assert SpanAt(lines, i, c, ticks, span);
    assert planned <==> PlannedAt(lines, i, c, ticks, span);
  }

  /** A code span stands in the document from the column of its first tick to its
      last, and so does what follows it on its line. */
  lemma CodeStands(lines: seq<string>, kept: seq<string>, s: string, at: nat, ticks: nat, close: nat)
    requires Blanked(lines, kept) && s == Unlines(kept) && Spans(s, at, ticks, close)
    ensures var i := LineOf(s, at) - 1;
            && i < |kept| && kept[i] != ""
            && HasSpan(lines, i, Trim(s[at + ticks..close]), PLANNED <= s[close + ticks..])
  {
    var i := LineOf(s, at) - 1;
    var end, c := SpanInDocument(lines, kept, s, at, ticks, close);
    SpanWritten(s, at, ticks, close);
    SpanFrom(lines, i, c, s, at, ticks, close, end);
  }

  lemma SpanInDocument(lines: seq<string>, kept: seq<string>, s: string, at: nat, ticks: nat, close: nat)
    returns (end: nat, c: nat)
    requires Blanked(lines, kept) && s == Unlines(kept) && Spans(s, at, ticks, close)
    ensures close + ticks <= end < |s| && s[end] == '\n'
    ensures var i := LineOf(s, at) - 1;
            && i < |kept| && kept[i] != "" && c < |lines[i]| && end + 1 - at <= |From(lines, i, c)|
            && From(lines, i, c)[..end + 1 - at] == s[at..end + 1]
  {
    end := SpanEnd(kept, s, at, ticks, close);
    c := Placed(kept, s, at);
    InDocument(lines, kept, s, at, end + 1 - at, LineOf(s, at) - 1, c);
  }

  lemma SpanFrom(lines: seq<string>, i: nat, c: nat, s: string, at: nat, ticks: nat, close: nat, end: nat)
    requires ticks > 0 && at + ticks <= close && close + ticks <= end < |s| && s[end] == '\n'
    requires Ticks(ticks) + s[at + ticks..close] + Ticks(ticks) == s[at..close + ticks]
    requires i < |lines| && c < |lines[i]| && end + 1 - at <= |From(lines, i, c)|
    requires From(lines, i, c)[..end + 1 - at] == s[at..end + 1]
    ensures HasSpan(lines, i, Trim(s[at + ticks..close]), PLANNED <= s[close + ticks..])
  {
    var p := close + ticks;
    assert '\n' !in PLANNED;
    StartsAlike(s, at, p, end, From(lines, i, c), PLANNED);
    SpanStands(lines, i, c, ticks, s[at + ticks..close], s[at..p], PLANNED <= s[p..]);
  }
}
