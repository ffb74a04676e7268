/** The links and code spans of a Markdown document (xtask/src/docs.rs). */
module Scan {
  import opened Basics
  import opened Spaces
  import opened Texts

  // ---- Fenced code blocks ----

  /** How many `mark` in a row start at `at`. */
  function RunLength(s: string, at: nat, mark: char): (n: nat)
    requires at <= |s|
    ensures at + n <= |s| && (forall k :: at <= k < at + n ==> s[k] == mark)
    ensures at + n < |s| ==> s[at + n] != mark
    decreases |s| - at
  {
    if at < |s| && s[at] == mark then 1 + RunLength(s, at + 1, mark) else 0
  }

  predicate IsAsciiSpace(c: char) {
    c == ' ' || c == '\t' || c == '\n' || c == '\r' || c as int == 0xC
  }

  predicate AsciiBlank(s: string) {
    forall k :: 0 <= k < |s| ==> IsAsciiSpace(s[k])
  }

  datatype Fence = Fence(mark: char, length: nat)

  /** The fence a line opens, outside one. */
  function Opens(line: string): Option<Fence> {
    var trimmed := TrimStart(line);
    if RunLength(trimmed, 0, '`') >= 3 then Some(Fence('`', RunLength(trimmed, 0, '`')))
    else if RunLength(trimmed, 0, '~') >= 3 then Some(Fence('~', RunLength(trimmed, 0, '~')))
    else None
  }

  predicate Closes(line: string, fence: Fence) {
    var trimmed := TrimStart(line);
    var run := RunLength(trimmed, 0, fence.mark);
    run >= fence.length && AsciiBlank(trimmed[run..])
  }

  function NextFence(fence: Option<Fence>, line: string): Option<Fence> {
    match fence
    case None => Opens(line)
    case Some(open) => if Closes(line, open) then None else fence
  }

  predicate Shown(fence: Option<Fence>, line: string) {
    fence.None? && Opens(line).None?
  }

  /** The fence that is open after the first `n` lines. */
  function FenceAfter(lines: seq<string>, n: nat): Option<Fence>
    requires n <= |lines|
  {
    if n == 0 then None else NextFence(FenceAfter(lines, n - 1), lines[n - 1])
  }

  /** Line `i` is of a fenced block: its opening or closing line, or between. */
  predicate Fenced(lines: seq<string>, i: nat)
    requires i < |lines|
  {
    FenceAfter(lines, i).Some? || Opens(lines[i]).Some?
  }

  /** The lines, those of fenced blocks left empty. */
  function Kept(lines: seq<string>): (kept: seq<string>)
    ensures |kept| == |lines|
  {
    seq(|lines|, i requires 0 <= i < |lines| => if Fenced(lines, i) then "" else lines[i])
  }

  lemma UnlinesMore(lines: seq<string>, i: nat)
    requires i < |lines|
    ensures Unlines(lines[..i + 1]) == Unlines(lines[..i]) + lines[i] + "\n"
  {
    assert lines[..i + 1] == lines[..i] + [lines[i]];
    UnlinesSnoc(lines[..i], lines[i]);
  }

  lemma FenceStep(lines: seq<string>, i: nat)
    requires i < |lines|
    ensures FenceAfter(lines, i + 1) == NextFence(FenceAfter(lines, i), lines[i])
    ensures Kept(lines)[i] == if Shown(FenceAfter(lines, i), lines[i]) then lines[i] else ""
  {
  }

  method WithoutFences(text: string) returns (prose: string)
    ensures prose == Unlines(Kept(LinesOf(text)))
  {
    var lines := LinesOf(text);
    ghost var kept := Kept(lines);
    prose := "";
    var fence: Option<Fence> := None;
    for i := 0 to |lines|
      invariant fence == FenceAfter(lines, i) && prose == Unlines(kept[..i])
    {
      FenceStep(lines, i);
      UnlinesMore(kept, i);
      prose, fence := PushLine(prose, lines[i], fence);
    }
    assert kept[..|lines|] == kept;
  }

  /** One line of the text, left empty when it is of a fenced block. */
  method PushLine(prose: string, line: string, fence: Option<Fence>) returns (more: string, next: Option<Fence>)
    ensures more == prose + (if Shown(fence, line) then line else "") + "\n" && next == NextFence(fence, line)
  {
    more, next := prose, fence;
    if fence.None? {
      next := Opens(line);
      if next.None? { more := more + line; }
    } else if Closes(line, fence.value) {
      next := None;
    }
    more := more + "\n";
  }

  // ---- Code spans ----

  /** The line that starts at `at`. */
  function LineFrom(s: string, at: nat): string
    requires at <= |s|
  {
    s[at..at + Find(s[at..], '\n')]
  }

  /** A newline at `p` ends its paragraph: a blank line, or none, follows. */
  predicate EndsParagraph(s: string, p: nat) {
    p < |s| && s[p] == '\n' && AsciiBlank(LineFrom(s, p + 1))
  }

  /** A run of exactly `ticks` backticks starts at `c`. */
  predicate TicksAt(s: string, from: nat, ticks: nat, c: nat) {
    && from <= c < |s| && s[c] == '`' && (c == from || s[c - 1] != '`') && RunLength(s, c, '`') == ticks
  }

  /** Such a run, the first after `from`, in its paragraph. */
  ghost predicate IsClose(s: string, from: nat, ticks: nat, c: nat) {
    && TicksAt(s, from, ticks, c)
    && (forall p :: from <= p < c ==> !EndsParagraph(s, p))
    && (forall b :: from <= b < c ==> !TicksAt(s, from, ticks, b))
  }

  ghost function CloseOf(s: string, from: nat, ticks: nat): (close: Option<nat>)
    ensures close.Some? ==> from <= close.value && close.value + ticks <= |s|
  {
    if exists c :: IsClose(s, from, ticks, c) then
      var c :| IsClose(s, from, ticks, c);
      Some(c)
    else None
  }

  lemma CloseUnique(s: string, from: nat, ticks: nat, c: nat)
    requires IsClose(s, from, ticks, c)
    ensures CloseOf(s, from, ticks) == Some(c)
  {
    var other := CloseOf(s, from, ticks).value;
    assert IsClose(s, from, ticks, other);
    assert other >= c && c >= other;
  }

  /** Before `at` no run closes the span and its paragraph does not end, and no run
      reaches over `at`. */
  ghost predicate OpenUpTo(s: string, from: nat, ticks: nat, at: nat) {
    && from <= at <= |s| && (at == from || at == |s| || s[at] != '`' || s[at - 1] != '`')
    && forall b :: from <= b < at ==> !EndsParagraph(s, b) && !TicksAt(s, from, ticks, b)
  }

  method ClosingTicks(s: string, from: nat, ticks: nat) returns (close: Option<nat>)
    requires ticks > 0 && from <= |s|
    ensures close == CloseOf(s, from, ticks)
  {
    var at := from;
    while at < |s|
      invariant OpenUpTo(s, from, ticks, at)
      decreases |s| - at
    {
      if s[at] == '`' {
        var run := RunLength(s, at, '`');
        if run == ticks {
          CloseHere(s, from, ticks, at);
          return Some(at);
        }
        RunsBetween(s, from, ticks, at, run);
        at := at + run;
      } else if s[at] == '\n' && AsciiBlank(LineFrom(s, at + 1)) {
        NoClose(s, from, ticks, at);
        return None;
      } else {
        CharBetween(s, from, ticks, at);
        at := at + 1;
      }
    }
    NoClose(s, from, ticks, at);
    return None;
  }

  lemma CloseHere(s: string, from: nat, ticks: nat, at: nat)
    requires OpenUpTo(s, from, ticks, at) && at < |s| && s[at] == '`' && RunLength(s, at, '`') == ticks
    ensures CloseOf(s, from, ticks) == Some(at)
  {
    CloseUnique(s, from, ticks, at);
  }

  lemma NoClose(s: string, from: nat, ticks: nat, at: nat)
    requires OpenUpTo(s, from, ticks, at) && (at == |s| || EndsParagraph(s, at))
    ensures CloseOf(s, from, ticks) == None
  {
    forall c ensures !IsClose(s, from, ticks, c) {
      if c == at { assert !TicksAt(s, from, ticks, at); }
    }
  }

  /** No run starts inside a run. */
  lemma RunsBetween(s: string, from: nat, ticks: nat, at: nat, run: nat)
    requires OpenUpTo(s, from, ticks, at) && at < |s| && s[at] == '`' && run == RunLength(s, at, '`') && run != ticks
    ensures run > 0 && OpenUpTo(s, from, ticks, at + run)
  {
  }

  lemma CharBetween(s: string, from: nat, ticks: nat, at: nat)
    requires OpenUpTo(s, from, ticks, at) && at < |s| && s[at] != '`' && !EndsParagraph(s, at)
    ensures OpenUpTo(s, from, ticks, at + 1)
  {
  }

  // ---- Definitions ----

  /** The destination of a reference-style definition, when `line` is one. */
  function DefinitionTarget(line: string): Option<string> {
    var indent := RunLength(line, 0, ' ');
    if indent == |line| || line[indent] != '[' || indent > 3 then None else LabelledTarget(line[indent + 1..])
  }

  /** And what follows the bracket that opens the label. */
  function LabelledTarget(bracketed: string): Option<string> {
    var close := Find(bracketed, ']');
    if close == |bracketed| then None
    else if Trim(bracketed[..close]) == "" || '[' in bracketed[..close] || bracketed[0] == '^' then None
    else if close + 1 == |bracketed| || bracketed[close + 1] != ':' then None
    else
      var target := Trim(bracketed[close + 2..]);
      if target == "" then None else Some(target)
  }

  /** The text after the last newline. */
  function LastLine(s: string): string {
    if s == "" then "" else if s[|s| - 1] == '\n' then "" else LastLine(s[..|s| - 1]) + [s[|s| - 1]]
  }

  predicate LineStarts(s: string, at: nat)
    requires at <= |s|
  {
    at == 0 || s[at - 1] == '\n'
  }

  /** A block can start at the line that starts at `at`. */
  predicate BlockStarts(s: string, at: nat, afterDefinition: bool)
    requires at <= |s|
  {
    || at == 0 || afterDefinition
    || var previous := Trim(LastLine(s[..at - 1])); previous == "" || previous[0] == '#'
  }

  // ---- What a document holds ----

  datatype Item = Link(line: nat, target: string) | Code(line: nat, text: string, planned: bool)

  const PLANNED: string := " (planned)"

  function Newlines(s: string): nat {
    if s == "" then 0 else Newlines(s[..|s| - 1]) + if s[|s| - 1] == '\n' then 1 else 0
  }

  /** The line `at` is on, counted from 1. */
  function LineOf(s: string, at: nat): nat
    requires at <= |s|
  {
    1 + Newlines(s[..at])
  }

  /** The definition found at `at`, when a line starts there. */
  function DefinitionAt(s: string, at: nat, afterDefinition: bool): Option<string>
    requires at <= |s|
  {
    if LineStarts(s, at) && BlockStarts(s, at, afterDefinition) then DefinitionTarget(LineFrom(s, at)) else None
  }

  /** Where a link's destination at `start` ends, if on its line. */
  function DestinationEnd(s: string, start: nat): (n: nat)
    requires start <= |s|
    ensures start <= n <= |s| && (n < |s| ==> s[n] == ')' || s[n] == '\n')
    ensures forall k :: start <= k < n ==> s[k] != ')' && s[k] != '\n'
    decreases |s| - start
  {
    if start == |s| || s[start] == ')' || s[start] == '\n' then start else DestinationEnd(s, start + 1)
  }

  /** What a run of ticks at `at` starts, closed or not. */
  function SpanHere(s: string, at: nat, ticks: nat, close: Option<nat>): (here: (seq<Item>, nat))
    requires at + ticks <= |s| && (close.Some? ==> at + ticks <= close.value && close.value + ticks <= |s|)
    ensures at + ticks <= here.1
  {
    match close
    case None => ([], at + ticks)
    case Some(end) =>
      ([Code(LineOf(s, at), Trim(s[at + ticks..end]), PLANNED <= s[end + ticks..])], end + ticks)
  }

  ghost function TicksHere(s: string, at: nat, ticks: nat): (here: (seq<Item>, nat))
    requires at + ticks <= |s|
    ensures at + ticks <= here.1
  {
    SpanHere(s, at, ticks, CloseOf(s, at + ticks, ticks))
  }

  /** What starts at `at`, and where to go on from. */
  ghost function Here(s: string, at: nat): (seq<Item>, nat)
    requires at < |s|
    ensures at < Here(s, at).1
  {
    if s[at] == '\\' then ([], at + 2)
    else if s[at] == '`' then TicksHere(s, at, RunLength(s, at, '`'))
    else if s[at] == ']' && at + 1 < |s| && s[at + 1] == '(' then
      var end := DestinationEnd(s, at + 2);
      if end < |s| && s[end] == ')' then ([Link(LineOf(s, at), s[at + 2..end])], end + 1) else ([], at + 2)
    else ([], at + 1)
  }

  ghost function Defined(s: string, at: nat, afterDefinition: bool): seq<Item>
    requires at <= |s|
  {
    match DefinitionAt(s, at, afterDefinition)
    case None => []
    case Some(target) => [Link(LineOf(s, at), target)]
  }

  predicate StillAfter(s: string, at: nat, afterDefinition: bool)
    requires at <= |s|
  {
    if LineStarts(s, at) then DefinitionAt(s, at, afterDefinition).Some? else afterDefinition
  }

  /** Every item from `at` on, each with the line it is on. */
  ghost function Items(s: string, at: nat, afterDefinition: bool): seq<Item>
    decreases if at < |s| then |s| - at else 0
  {
    if at >= |s| then []
    else
      var here := Here(s, at);
      Defined(s, at, afterDefinition) + here.0 + Items(s, here.1, StillAfter(s, at, afterDefinition))
  }
}
