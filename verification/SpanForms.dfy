/** Where a code span of a document ends, and what a look of the scan passes over
    (xtask/src/docs.rs). */
module SpanForms {
  import opened Basics
  import opened Spaces
  import opened Texts
  import opened Scan
  import opened ScanPlaces
  import opened Scanner
  import opened ScanWalk

  // ---- The end of a paragraph ----

  ghost predicate BlankBetween(s: string, from: nat, to: nat) {
    from <= to <= |s| && forall k :: from <= k < to ==> s[k] as int in {9, 12, 13, 32}
  }

  /** From `from` on only white space of ASCII to the next newline or to the end. */
  ghost predicate BlankLine(s: string, from: nat) {
    exists end: nat :: BlankBetween(s, from, end) && (end == |s| || s[end] == '\n')
  }

  /** A newline at `p`, and only white space of ASCII from there to the next newline
      or to the end. */
  ghost predicate BlankLineAfter(s: string, p: nat) {
    p < |s| && s[p] == '\n' && BlankLine(s, p + 1)
  }

  lemma LineBounds(s: string, at: nat) returns (end: nat)
    requires at <= |s|
    ensures at <= end <= |s| && LineFrom(s, at) == s[at..end] && (end == |s| || s[end] == '\n')
    ensures forall k :: at <= k < end ==> s[k] != '\n'
  {
    var rest := s[at..];
    var n := Find(rest, '\n');
    end := at + n;
    assert forall k :: 0 <= k < |rest| ==> rest[k] == s[at + k];
    assert forall k :: at <= k < end ==> s[k] == rest[k - at];
  }

  lemma BlankSlice(s: string, from: nat, to: nat)
    requires from <= to <= |s| && forall k :: from <= k < to ==> s[k] != '\n'
    ensures AsciiBlank(s[from..to]) <==> BlankBetween(s, from, to)
  {
    var line := s[from..to];
    assert forall k :: 0 <= k < |line| ==> line[k] == s[from + k];
    assert forall k :: from <= k < to ==> s[k] == line[k - from];
  }

  lemma OneEnd(s: string, at: nat, end: nat, other: nat)
    requires at <= end <= |s| && (end == |s| || s[end] == '\n') && forall k :: at <= k < end ==> s[k] != '\n'
    requires BlankBetween(s, at, other) && (other == |s| || s[other] == '\n')
    ensures end == other
  {
  }

  /** What ends a paragraph. */
  lemma ParagraphEnds(s: string, p: nat)
    ensures EndsParagraph(s, p) <==> BlankLineAfter(s, p)
  {
    if p < |s| && s[p] == '\n' {
      LineBlank(s, p + 1);
    }
  }

  lemma LineBlank(s: string, at: nat)
    requires at <= |s|
    ensures AsciiBlank(LineFrom(s, at)) <==> BlankLine(s, at)
  {
    var end := LineBounds(s, at);
    BlankSlice(s, at, end);
    if BlankLine(s, at) {
      var other: nat :| BlankBetween(s, at, other) && (other == |s| || s[other] == '\n');
      OneEnd(s, at, end, other);
    }
  }

  // ---- The ticks that close a span ----

  /** As many backticks as `ticks` at `c`, none before them from `from` on and none after. */
  ghost predicate TickRun(s: string, from: nat, ticks: nat, c: nat) {
    && ticks > 0 && from <= c && c + ticks <= |s| && (forall k :: c <= k < c + ticks ==> s[k] == '`')
    && (c == from || s[c - 1] != '`') && (c + ticks == |s| || s[c + ticks] != '`')
  }

  lemma TicksMean(s: string, from: nat, ticks: nat, c: nat)
    requires ticks > 0
    ensures TicksAt(s, from, ticks, c) <==> TickRun(s, from, ticks, c)
  {
  }

  ghost predicate FirstRun(s: string, from: nat, ticks: nat, c: nat) {
    && TickRun(s, from, ticks, c)
    && forall b: nat :: from <= b < c ==> !TickRun(s, from, ticks, b) && !BlankLineAfter(s, b)
  }

  lemma CloseIs(s: string, from: nat, ticks: nat, c: nat)
    requires ticks > 0
    ensures IsClose(s, from, ticks, c) <==> FirstRun(s, from, ticks, c)
  {
    TicksMean(s, from, ticks, c);
    forall b: nat ensures TicksAt(s, from, ticks, b) <==> TickRun(s, from, ticks, b) { TicksMean(s, from, ticks, b); }
    forall b: nat ensures EndsParagraph(s, b) <==> BlankLineAfter(s, b) { ParagraphEnds(s, b); }
  }

  /** A span ends at the first run of just as many backticks, before a blank line. */
  lemma CloseMeans(s: string, from: nat, ticks: nat, c: nat)
    requires ticks > 0
    ensures CloseOf(s, from, ticks) == Some(c) <==> FirstRun(s, from, ticks, c)
  {
    CloseIs(s, from, ticks, c);
    if IsClose(s, from, ticks, c) { CloseUnique(s, from, ticks, c); }
  }

  // ---- What a look passes over ----

  /** The run of backticks at `p` is `ticks` long. */
  ghost predicate Ticked(s: string, p: nat, ticks: nat) {
    && ticks > 0 && p + ticks <= |s| && (forall k :: p <= k < p + ticks ==> s[k] == '`')
    && (p + ticks == |s| || s[p + ticks] != '`')
  }

  /** A look at `p` passes over `at`: the character after a backslash; backticks of the
      run at `p`, and all up to the end of the run that closes it; the bracket and the
      destination of a link up to the parenthesis on its line that closes it. */
  ghost predicate PassesOver(s: string, p: nat, at: nat) {
    && p < at < |s|
    && (|| (s[p] == '\\' && at == p + 1)
        || (exists ticks: nat :: TicksReach(s, p, ticks, at))
        || (s[p] == ']' && s[p + 1] == '(' && (at == p + 1 || DestinationReaches(s, p + 2, at))))
  }

  ghost predicate TicksReach(s: string, p: nat, ticks: nat, at: nat) {
    Ticked(s, p, ticks) && (at < p + ticks || SpanReaches(s, p + ticks, ticks, at))
  }

  ghost predicate SpanReaches(s: string, from: nat, ticks: nat, at: nat) {
    exists c: nat :: FirstRun(s, from, ticks, c) && at < c + ticks
  }

  ghost predicate DestinationReaches(s: string, from: nat, at: nat) {
    exists end: nat :: Closed(s, from, end) && at <= end
  }

  /** The first parenthesis that closes, or newline, from `from` on is the one at `end`. */
  ghost predicate Closed(s: string, from: nat, end: nat) {
    from <= end < |s| && s[end] == ')' && forall k :: from <= k < end ==> s[k] != ')' && s[k] != '\n'
  }

  lemma OneRun(s: string, p: nat, ticks: nat)
    requires Ticked(s, p, ticks)
    ensures ticks == RunLength(s, p, '`') && s[p] == '`'
  {
  }

  lemma SpanPasses(s: string, from: nat, ticks: nat, at: nat)
    requires ticks > 0
    ensures SpanReaches(s, from, ticks, at) <==> CloseOf(s, from, ticks).Some? && at < CloseOf(s, from, ticks).value + ticks
  {
    var close := CloseOf(s, from, ticks);
    if close.Some? { CloseMeans(s, from, ticks, close.value); }
    if SpanReaches(s, from, ticks, at) {
      var c: nat :| FirstRun(s, from, ticks, c) && at < c + ticks;
      CloseMeans(s, from, ticks, c);
    }
  }

  lemma RunPasses(s: string, p: nat, ticks: nat, close: Option<nat>, at: nat)
    requires p < |s| && s[p] == '`' && ticks == RunLength(s, p, '`') && close == CloseOf(s, p + ticks, ticks)
    ensures at < Here(s, p).1 <==> at < p + ticks || (close.Some? && at < close.value + ticks)
  {
    HereTicks(s, p, ticks);
    TicksAreSpan(s, p, ticks, close);
  }

  lemma RunTicked(s: string, p: nat, ticks: nat)
    requires p < |s| && s[p] == '`' && ticks == RunLength(s, p, '`')
    ensures Ticked(s, p, ticks)
  {
  }

  lemma ReachesOnce(s: string, p: nat, ticks: nat, at: nat)
    requires Ticked(s, p, ticks)
    ensures (exists n: nat :: TicksReach(s, p, n, at)) <==> TicksReach(s, p, ticks, at)
  {
    OneRun(s, p, ticks);
    if n: nat :| TicksReach(s, p, n, at) { OneRun(s, p, n); }
  }

  lemma TicksPass(s: string, p: nat, at: nat)
    requires p < at < |s| && s[p] == '`'
    ensures at < Here(s, p).1 <==> exists ticks: nat :: TicksReach(s, p, ticks, at)
  {
    var ticks := RunLength(s, p, '`');
    RunTicked(s, p, ticks);
    RunPasses(s, p, ticks, CloseOf(s, p + ticks, ticks), at);
    SpanPasses(s, p + ticks, ticks, at);
    ReachesOnce(s, p, ticks, at);
  }

  lemma DestinationPasses(s: string, p: nat, at: nat)
    requires p < at < |s| && s[p] == ']'
    ensures at < Here(s, p).1 <==> s[p + 1] == '(' && (at == p + 1 || DestinationReaches(s, p + 2, at))
  {
    if s[p + 1] == '(' {
      var n := DestinationEnd(s, p + 2);
      assert n < |s| && s[n] == ')' ==> Closed(s, p + 2, n);
      if DestinationReaches(s, p + 2, at) {
        var end: nat :| Closed(s, p + 2, end) && at <= end;
        DestinationIs(s, p + 2, end);
      }
    }
  }

  /** What is inside something that the scan finds at `p`. */
  lemma InsideMeans(s: string, p: nat, at: nat)
    ensures Inside(s, p, at) <==> Looked(s, p) && PassesOver(s, p, at)
  {
    if p < at < |s| {
      if s[p] == '`' {
        TicksPass(s, p, at);
      } else if s[p] == ']' {
        DestinationPasses(s, p, at);
      }
      if n: nat :| TicksReach(s, p, n, at) { OneRun(s, p, n); }
    }
  }
}
