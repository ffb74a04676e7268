/** The scan of a document (xtask/src/docs.rs): one pass with a running line
    number, and what the numbers mean. */
module Scanner {
  import opened Basics
  import opened Spaces
  import opened Texts
  import opened Scan
  import opened LineForms
  import opened ScanPlaces

  // ---- The scan ----

  /** What the character at `at` starts: the items found, where to go on, and the
      line there. */
  method Look(s: string, at: nat, line: nat) returns (found: seq<Item>, next: nat, nextLine: nat)
    requires at < |s| && line == LineOf(s, at)
    ensures (found, next) == Here(s, at) && (next <= |s| ==> nextLine == LineOf(s, next))
  {
    found, next, nextLine := [], at + 1, line;
    if s[at] == '\n' {
      NextLine(s, at);
      nextLine := line + 1;
    } else if s[at] == '\\' {
      next := at + 2;
      NextLine(s, at);
      if at + 1 < |s| {
        NextLine(s, at + 1);
        if s[at + 1] == '\n' { nextLine := line + 1; }
      }
    } else if s[at] == '`' {
      found, next, nextLine := LookAtRun(s, at, line);
    } else if s[at] == ']' && at + 1 < |s| && s[at + 1] == '(' {
      found, next := LookAtLink(s, at, line);
      SameLine(s, at, next);
    } else {
      NextLine(s, at);
    }
  }

  method LookAtRun(s: string, at: nat, line: nat) returns (found: seq<Item>, next: nat, nextLine: nat)
    requires at < |s| && s[at] == '`' && line == LineOf(s, at)
    ensures (found, next) == Here(s, at) && next <= |s| && nextLine == LineOf(s, next)
  {
    var ticks, newlines := RunLength(s, at, '`'), 0;
    ghost var close;
    found, next, newlines, close := LookAtTicks(s, at, line, ticks);
    nextLine := line + newlines;
    HereTicks(s, at, ticks);
    TicksAreSpan(s, at, ticks, close);
    CloseOfSpans(s, at, ticks, close);
    NextLineIs(s, at, ticks, close, next, newlines);
  }

  /** What a run of ticks starts; the newlines passed are those of the span. */
  method LookAtTicks(s: string, at: nat, line: nat, ticks: nat)
    returns (found: seq<Item>, next: nat, newlines: nat, ghost close: Option<nat>)
    requires at + ticks <= |s| && ticks > 0 && line == LineOf(s, at)
    ensures close == CloseOf(s, at + ticks, ticks) && (found, next) == SpanHere(s, at, ticks, close)
    ensures if close.None? then next == at + ticks && newlines == 0
            else next == close.value + ticks && newlines == Newlines(s[at + ticks..close.value])
  {
    var end := ClosingTicks(s, at + ticks, ticks);
    close := end;
    found, next, newlines := [], at + ticks, 0;
    if end.Some? {
      var span := s[at + ticks..end.value];
      found := [Code(line, Trim(span), PLANNED <= s[end.value + ticks..])];
      next, newlines := end.value + ticks, Newlines(span);
    }
  }

  lemma HereTicks(s: string, at: nat, ticks: nat)
    requires at < |s| && s[at] == '`' && ticks == RunLength(s, at, '`')
    ensures Here(s, at) == TicksHere(s, at, ticks)
  {
  }

  lemma TicksAreSpan(s: string, at: nat, ticks: nat, close: Option<nat>)
    requires at + ticks <= |s| && close == CloseOf(s, at + ticks, ticks)
    ensures TicksHere(s, at, ticks) == SpanHere(s, at, ticks, close)
  {
  }

  lemma CloseOfSpans(s: string, at: nat, ticks: nat, close: Option<nat>)
    requires at < |s| && s[at] == '`' && ticks == RunLength(s, at, '`') && close == CloseOf(s, at + ticks, ticks)
    ensures TicksFrom(s, at, ticks) && (close.Some? ==> Spans(s, at, ticks, close.value))
  {
    if close.Some? { CloseSpans(s, at, ticks, close.value); }
  }

  /** The newlines of a span are those between its ticks. */
  lemma SpanLines(s: string, at: nat, ticks: nat, close: nat)
    requires Spans(s, at, ticks, close)
    ensures LineOf(s, close + ticks) == LineOf(s, at) + Newlines(s[at + ticks..close])
  {
    SameLine(s, at, at + ticks);
    LineAdvances(s, at + ticks, close);
    SameLine(s, close, close + ticks);
  }

  lemma NextLineIs(s: string, at: nat, ticks: nat, close: Option<nat>, next: nat, newlines: nat)
    requires TicksFrom(s, at, ticks) && (close.Some? ==> Spans(s, at, ticks, close.value))
    requires if close.None? then next == at + ticks && newlines == 0
             else next == close.value + ticks && newlines == Newlines(s[at + ticks..close.value])
    ensures next <= |s| && LineOf(s, next) == LineOf(s, at) + newlines
  {
    if close.None? {
      SameLine(s, at, next);
    } else {
      SpanLines(s, at, ticks, close.value);
    }
  }

  method LookAtLink(s: string, at: nat, line: nat) returns (found: seq<Item>, next: nat)
    requires at + 1 < |s| && s[at] == ']' && s[at + 1] == '(' && line == LineOf(s, at)
    ensures (found, next) == Here(s, at) && at <= next <= |s| && '\n' !in s[at..next]
  {
    var end := DestinationEnd(s, at + 2);
    if end < |s| && s[end] == ')' {
      return [Link(line, s[at + 2..end])], end + 1;
    }
    return [], at + 2;
  }

  /** The definition at `at`, if a line starts there with one. */
  method LookForDefinition(s: string, at: nat, line: nat, afterDefinition: bool)
    returns (found: seq<Item>, stillAfter: bool)
    requires at < |s| && line == LineOf(s, at)
    ensures found == Defined(s, at, afterDefinition) && stillAfter == StillAfter(s, at, afterDefinition)
  {
    found, stillAfter := [], afterDefinition;
    if at == 0 || s[at - 1] == '\n' {
      stillAfter := false;
      if BlockStarts(s, at, afterDefinition) {
        var target := DefinitionTarget(LineFrom(s, at));
        if target.Some? {
          found, stillAfter := [Link(line, target.value)], true;
        }
      }
    }
  }

  lemma ItemsStep(s: string, at: nat, afterDefinition: bool, before: seq<Item>)
    requires at < |s|
    ensures before + Items(s, at, afterDefinition) ==
            before + Defined(s, at, afterDefinition) + Here(s, at).0
            + Items(s, Here(s, at).1, StillAfter(s, at, afterDefinition))
  {
    var defined, here := Defined(s, at, afterDefinition), Here(s, at);
    var rest := Items(s, here.1, StillAfter(s, at, afterDefinition));
    Associate(before, defined + here.0, rest);
    Associate(before, defined, here.0);
  }

  method ScanProse(prose: string) returns (items: seq<Item>)
    ensures items == Items(prose, 0, false)
  {
    items := [];
    var line, at, afterDefinition := 1, 0, false;
    while at < |prose|
      invariant at <= |prose| ==> line == LineOf(prose, at)
      invariant items + Items(prose, at, afterDefinition) == Items(prose, 0, false)
      decreases |prose| - at
    {
      ItemsStep(prose, at, afterDefinition, items);
      var defined, found;
      defined, afterDefinition := LookForDefinition(prose, at, line, afterDefinition);
      found, at, line := Look(prose, at, line);
      items := items + defined + found;
    }
    assert items + [] == items;
  }

  // ---- Where items are found ----

  /** `item` is a definition that the line at `at` holds. */
  ghost predicate DefinitionItem(s: string, at: nat, item: Item) {
    && at < |s| && LineStarts(s, at) && item.Link? && item.line == LineOf(s, at)
    && DefinitionTarget(LineFrom(s, at)) == Some(item.target)
  }

  /** `item` is a link whose destination is at `at`. */
  ghost predicate LinkItem(s: string, at: nat, item: Item) {
    item.Link? && LinkFound(s, at, item.target) && item.line == LineOf(s, at)
  }

  /** `item` is the code span from `at` to the ticks at `close`. */
  ghost predicate CodeItem(s: string, at: nat, ticks: nat, close: nat, item: Item) {
    && Spans(s, at, ticks, close)
    && item == Code(LineOf(s, at), Trim(s[at + ticks..close]), PLANNED <= s[close + ticks..])
  }

  ghost predicate Found(s: string, at: nat, item: Item) {
    DefinitionItem(s, at, item) || LinkItem(s, at, item) || exists ticks, close :: CodeItem(s, at, ticks, close, item)
  }

  lemma HereCode(s: string, at: nat, item: Item)
    requires at < |s| && s[at] == '`' && item in Here(s, at).0
    ensures Found(s, at, item)
  {
    var ticks := RunLength(s, at, '`');
    var close := CloseOf(s, at + ticks, ticks).value;
    assert IsClose(s, at + ticks, ticks, close);
    CloseSpans(s, at, ticks, close);
    assert CodeItem(s, at, ticks, close, item);
  }

  lemma HereLink(s: string, at: nat, item: Item)
    requires at < |s| && s[at] != '`' && item in Here(s, at).0
    ensures LinkItem(s, at, item)
  {
    DestinationFound(s, at);
  }

  lemma DefinedHere(s: string, at: nat, afterDefinition: bool, item: Item)
    requires at < |s| && item in Defined(s, at, afterDefinition)
    ensures DefinitionItem(s, at, item)
  {
  }

  lemma OneOfThree<T>(a: seq<T>, b: seq<T>, c: seq<T>, x: T)
    ensures x in a + b + c <==> x in a || x in b || x in c
  {
  }

  /** Going on from `from` the scan looks at `p`. */
  ghost predicate LooksFrom(s: string, from: nat, p: nat)
    decreases if from < |s| then |s| - from else 0
  {
    from == p || (from < |s| && from < p && LooksFrom(s, Here(s, from).1, p))
  }

  /** Whatever the scan finds is found at a place it looks at. */
  lemma {:induction false} ItemsFound(s: string, at: nat, afterDefinition: bool, item: Item) returns (p: nat)
    requires item in Items(s, at, afterDefinition)
    ensures Found(s, p, item) && at <= p && LooksFrom(s, at, p)
    decreases |s| - at
  {
    p := at;
    var defined, here := Defined(s, at, afterDefinition), Here(s, at);
    var rest := Items(s, here.1, StillAfter(s, at, afterDefinition));
    OneOfThree(defined, here.0, rest, item);
    if item in defined {
      DefinedHere(s, at, afterDefinition, item);
    } else if item in rest {
      p := ItemsFound(s, here.1, StillAfter(s, at, afterDefinition), item);
    } else if s[at] == '`' {
      HereCode(s, at, item);
    } else {
      HereLink(s, at, item);
    }
  }

  // ---- Where items stand in the document ----

  ghost predicate OnDefinition(lines: seq<string>, item: Item) {
    item.Link? && 1 <= item.line <= |lines| && IsDefinition(lines[item.line - 1], item.target)
  }

  ghost predicate OnLink(lines: seq<string>, item: Item) {
    item.Link? && 1 <= item.line <= |lines| && HasLink(lines[item.line - 1], item.target)
  }

  ghost predicate OnSpan(lines: seq<string>, item: Item) {
    item.Code? && 1 <= item.line <= |lines| && HasSpan(lines, item.line - 1, item.text, item.planned)
  }

  /** The document has, on the line `item` carries, that link's destination, that
      definition, or that code span from its first tick on. */
  ghost predicate Written(lines: seq<string>, item: Item) {
    OnDefinition(lines, item) || OnLink(lines, item) || OnSpan(lines, item)
  }

  /** And that is no line of a fenced block. */
  ghost predicate Stands(lines: seq<string>, item: Item) {
    Written(lines, item) && !Fenced(lines, item.line - 1)
  }

  lemma KeptBlanks(lines: seq<string>)
    requires AllOneLine(lines)
    ensures Blanked(lines, Kept(lines))
    ensures forall i :: 0 <= i < |lines| && Kept(lines)[i] != "" ==> !Fenced(lines, i)
  {
  }

  lemma FoundWritten(lines: seq<string>, kept: seq<string>, s: string, at: nat, item: Item)
    requires Blanked(lines, kept) && s == Unlines(kept) && Found(s, at, item)
    ensures Written(lines, item) && kept[item.line - 1] != ""
  {
    if DefinitionItem(s, at, item) {
      DefinitionWritten(lines, kept, s, at, item);
    } else if LinkItem(s, at, item) {
      LinkWritten(lines, kept, s, at, item);
    } else {
      var ticks, close :| CodeItem(s, at, ticks, close, item);
      CodeWritten(lines, kept, s, at, ticks, close, item);
    }
  }

  lemma DefinitionWritten(lines: seq<string>, kept: seq<string>, s: string, at: nat, item: Item)
    requires Blanked(lines, kept) && s == Unlines(kept) && DefinitionItem(s, at, item)
    ensures OnDefinition(lines, item) && kept[item.line - 1] != ""
  {
    DefinitionStands(kept, s, at, item.target);
  }

  lemma LinkWritten(lines: seq<string>, kept: seq<string>, s: string, at: nat, item: Item)
    requires Blanked(lines, kept) && s == Unlines(kept) && LinkItem(s, at, item)
    ensures OnLink(lines, item) && kept[item.line - 1] != ""
  {
    LinkStands(kept, s, at, item.target);
  }

  lemma CodeWritten(lines: seq<string>, kept: seq<string>, s: string, at: nat, ticks: nat, close: nat, item: Item)
    requires Blanked(lines, kept) && s == Unlines(kept) && CodeItem(s, at, ticks, close, item)
    ensures OnSpan(lines, item) && kept[item.line - 1] != ""
  {
    CodeStands(lines, kept, s, at, ticks, close);
  }

  /** Every item of the scan stands in the document. */
  lemma ItemsStand(lines: seq<string>, item: Item)
    requires AllOneLine(lines) && item in Items(Unlines(Kept(lines)), 0, false)
    ensures Stands(lines, item)
  {
    var p := ItemsFound(Unlines(Kept(lines)), 0, false, item);
    KeptBlanks(lines);
    FoundWritten(lines, Kept(lines), Unlines(Kept(lines)), p, item);
  }

  /** The links, definitions and code spans of a document: the code's scan of its
      prose, each in the document on the line it carries. */
  method ScanText(text: string) returns (items: seq<Item>)
    ensures items == Items(Unlines(Kept(LinesOf(text))), 0, false)
    ensures forall k :: 0 <= k < |items| ==> Stands(LinesOf(text), items[k])
  {
    var prose := WithoutFences(text);
    items := ScanProse(prose);
    LinesAreLines(text);
    forall k | 0 <= k < |items| ensures Stands(LinesOf(text), items[k]) {
      ItemsStand(LinesOf(text), items[k]);
    }
  }

  /** No part of a code span is in a fenced block, however many lines it takes. */
  lemma SpanOutsideFences(lines: seq<string>, s: string, at: nat, ticks: nat, close: nat, q: nat)
    requires AllOneLine(lines) && s == Unlines(Kept(lines)) && at < |s| && s[at] == '`'
    requires ticks == RunLength(s, at, '`') && IsClose(s, at + ticks, ticks, close) && at <= q < close + ticks
    ensures q < |s| && LineOf(s, q) <= |lines| && !Fenced(lines, LineOf(s, q) - 1)
  {
    KeptBlanks(lines);
    CloseSpans(s, at, ticks, close);
    SpanOnText(Kept(lines), s, at, ticks, close, q);
  }
}
