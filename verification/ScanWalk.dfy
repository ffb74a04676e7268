/** The places a scan looks at (xtask/src/docs.rs): nothing it would report is
    missed, and on which line a link starts. */
module ScanWalk {
  import opened Basics
  import opened Spaces
  import opened Texts
  import opened Scan
  import opened LineForms
  import opened ScanPlaces
  import opened Scanner

  // ---- The places looked at ----

  ghost predicate Looked(s: string, p: nat) {
    p < |s| && LooksFrom(s, 0, p)
  }

  lemma {:induction false} LooksOn(s: string, from: nat, p: nat)
    requires LooksFrom(s, from, p) && p < |s|
    ensures LooksFrom(s, from, Here(s, p).1)
    decreases |s| - from
  {
    if from < p { LooksOn(s, Here(s, from).1, p); }
  }

  /** `at` is inside an escape, a code span, unclosed ticks or a destination that
      the scan finds at `p`. */
  ghost predicate Inside(s: string, p: nat, at: nat) {
    p < at < |s| && (s[p] == '\\' || s[p] == '`' || s[p] == ']') && Looked(s, p) && at < Here(s, p).1
  }

  ghost predicate SomewhereInside(s: string, at: nat) {
    exists p :: Inside(s, p, at)
  }

  /** Places looked at are not inside what is found before them. */
  lemma {:induction false} LooksPast(s: string, from: nat, p: nat, at: nat)
    requires p < |s| && LooksFrom(s, from, p) && LooksFrom(s, from, at) && p < at
    ensures Here(s, p).1 <= at
    decreases |s| - from
  {
    if from < p {
      LooksPast(s, Here(s, from).1, p, at);
    } else {
      LooksAhead(s, Here(s, from).1, at);
    }
  }

  lemma LooksAhead(s: string, from: nat, p: nat)
    requires LooksFrom(s, from, p)
    ensures from <= p
  {
  }

  /** The last place looked at up to `at`. */
  lemma {:induction false} LastLook(s: string, from: nat, at: nat) returns (p: nat)
    requires from <= at < |s|
    ensures from <= p <= at && LooksFrom(s, from, p) && at < Here(s, p).1
    decreases |s| - from
  {
    p := from;
    if Here(s, from).1 <= at { p := LastLook(s, Here(s, from).1, at); }
  }

  /** The scan looks at exactly the places that are not inside something. */
  lemma LookedOrInside(s: string, at: nat)
    requires at < |s|
    ensures Looked(s, at) <==> !SomewhereInside(s, at)
  {
    var p := LastLook(s, 0, at);
    if p < at { assert Inside(s, p, at); }
    if SomewhereInside(s, at) && Looked(s, at) {
      var q :| Inside(s, q, at);
      LooksPast(s, 0, q, at);
    }
  }

  // ---- Nothing missed ----

  /** Whether the scan, when it comes to `at`, takes a definition to be on the line
      before. */
  ghost function AfterFrom(s: string, from: nat, after: bool, at: nat): bool
    decreases if from < |s| then |s| - from else 0
  {
    if from >= at || from >= |s| then after else AfterFrom(s, Here(s, from).1, StillAfter(s, from, after), at)
  }

  ghost function AfterDefinition(s: string, at: nat): bool {
    AfterFrom(s, 0, false, at)
  }

  /** What is found at a place looked at is reported. */
  lemma {:induction false} LookedReported(s: string, from: nat, after: bool, at: nat, item: Item)
    requires at < |s| && LooksFrom(s, from, at)
    requires item in Here(s, at).0 || item in Defined(s, at, AfterFrom(s, from, after, at))
    ensures item in Items(s, from, after)
    decreases |s| - from
  {
    var next, still := Here(s, from).1, StillAfter(s, from, after);
    OneOfThree(Defined(s, from, after), Here(s, from).0, Items(s, next, still), item);
    if from < at { LookedReported(s, next, still, at, item); }
  }

  lemma NothingMissed(s: string, at: nat, item: Item)
    requires at < |s| && (item in Here(s, at).0 || item in Defined(s, at, AfterDefinition(s, at)))
    ensures item in Items(s, 0, false) || SomewhereInside(s, at)
  {
    LookedOrInside(s, at);
    if Looked(s, at) { LookedReported(s, 0, false, at, item); }
  }

  lemma DestinationIs(s: string, start: nat, end: nat)
    requires start <= end < |s| && s[end] == ')' && forall k :: start <= k < end ==> s[k] != ')' && s[k] != '\n'
    ensures DestinationEnd(s, start) == end
  {
  }

  /** The characters of a link's destination. */
  lemma LinkSpelled(s: string, at: nat, target: string)
    requires LinkFound(s, at, target) && ')' !in target
    ensures var end := at + 2 + |target|;
            && end < |s| && s[at] == ']' && s[at + 1] == '(' && s[end] == ')' && s[at + 2..end] == target
            && forall k :: at + 2 <= k < end ==> s[k] != ')' && s[k] != '\n'
  {
    var w, text := "](" + target + ")", s[at..];
    assert w == text[..|w|];
    assert forall k :: 0 <= k < |w| ==> s[at + k] == text[k] == w[k];
    assert forall k :: at + 2 <= k < at + 2 + |target| ==> s[k] == w[k - at] == target[k - at - 2];
    assert forall k :: 0 <= k < |target| ==> target[k] == w[k + 2] && w[k + 2] in w;
  }

  lemma LinkIsHere(s: string, at: nat, target: string)
    requires LinkFound(s, at, target) && ')' !in target
    ensures Link(LineOf(s, at), target) in Here(s, at).0
  {
    LinkSpelled(s, at, target);
    DestinationIs(s, at + 2, at + 2 + |target|);
  }

  /** Every link's destination in the prose is reported with its line, unless it
      starts inside an escape, a code span, unclosed ticks or another destination. */
  lemma NoLinkMissed(s: string, at: nat, target: string)
    requires LinkFound(s, at, target) && ')' !in target
    ensures Link(LineOf(s, at), target) in Items(s, 0, false) || SomewhereInside(s, at)
  {
    LinkIsHere(s, at, target);
    NothingMissed(s, at, Link(LineOf(s, at), target));
  }

  lemma SpanIs(s: string, at: nat, ticks: nat, close: nat, item: Item)
    requires at + ticks <= close && close + ticks <= |s|
    requires item == Code(LineOf(s, at), Trim(s[at + ticks..close]), PLANNED <= s[close + ticks..])
    ensures item in SpanHere(s, at, ticks, Some(close)).0
  {
  }

  /** And so is every code span: a run of ticks that another closes. */
  lemma NoSpanMissed(s: string, at: nat, ticks: nat, close: nat, item: Item)
    requires at < |s| && s[at] == '`' && ticks == RunLength(s, at, '`') && CloseOf(s, at + ticks, ticks) == Some(close)
    requires item == Code(LineOf(s, at), Trim(s[at + ticks..close]), " (planned)" <= s[close + ticks..])
    ensures item in Items(s, 0, false) || SomewhereInside(s, at)
  {
    SpanIs(s, at, ticks, close, item);
    FoundTicks(s, at, ticks, Some(close), item);
  }

  lemma FoundTicks(s: string, at: nat, ticks: nat, close: Option<nat>, item: Item)
    requires at < |s| && s[at] == '`' && ticks == RunLength(s, at, '`') && close == CloseOf(s, at + ticks, ticks)
    requires item in SpanHere(s, at, ticks, close).0
    ensures item in Items(s, 0, false) || SomewhereInside(s, at)
  {
    HereTicks(s, at, ticks);
    TicksAreSpan(s, at, ticks, close);
    NothingMissed(s, at, item);
  }

  lemma LineFromIs(s: string, at: nat, line: string)
    requires at + |line| <= |s| && s[at..at + |line|] == line && '\n' !in line
    requires at + |line| == |s| || s[at + |line|] == '\n'
    ensures LineFrom(s, at) == line
  {
    var text := s[at..];
    assert forall k :: 0 <= k < |line| ==> text[k] == line[k] && line[k] in line;
    assert at + |line| < |s| ==> text[|line|] == '\n';
    assert Find(text, '\n') == |line|;
  }

  lemma DefinitionReported(s: string, at: nat, target: string)
    requires at < |s| && LineStarts(s, at) && BlockStarts(s, at, AfterDefinition(s, at))
    requires DefinitionTarget(LineFrom(s, at)) == Some(target)
    ensures Link(LineOf(s, at), target) in Items(s, 0, false) || SomewhereInside(s, at)
  {
    NothingMissed(s, at, Link(LineOf(s, at), target));
  }

  /** And so is every line that is a definition, where a block can start. */
  lemma NoDefinitionMissed(s: string, at: nat, line: string, target: string)
    requires at + |line| <= |s| && s[at..at + |line|] == line && '\n' !in line && IsDefinition(line, target)
    requires (at == 0 || s[at - 1] == '\n') && (at + |line| == |s| || s[at + |line|] == '\n')
    requires at == 0 || AfterDefinition(s, at) || exists p: nat :: LineBefore(s, p, at) && BlankOrHeading(s, p, at - 1)
    ensures Link(LineOf(s, at), target) in Items(s, 0, false) || SomewhereInside(s, at)
  {
    LineFromIs(s, at, line);
    DefinitionMeans(line, target);
    BlockStartsMeans(s, at, AfterDefinition(s, at));
    DefinitionReported(s, at, target);
  }

  // ---- The line before ----

  /** No line starts at a place looked at from `from` on, before `at`. */
  ghost predicate NoStarts(s: string, from: nat, at: nat) {
    forall q :: from <= q < at && q < |s| && LooksFrom(s, from, q) ==> !LineStarts(s, q)
  }

  /** `p` starts the last line that a look before `at` starts, a definition. */
  ghost predicate HoldsLast(s: string, from: nat, after: bool, p: nat, at: nat) {
    && p < at && p < |s| && LooksFrom(s, from, p) && LineStarts(s, p)
    && DefinitionAt(s, p, AfterFrom(s, from, after, p)).Some? && NoStarts(s, Here(s, p).1, at)
  }

  lemma NoStartsStep(s: string, from: nat, at: nat)
    requires from < at && from < |s|
    ensures NoStarts(s, from, at) <==> !LineStarts(s, from) && NoStarts(s, Here(s, from).1, at)
  {
    var next := Here(s, from).1;
    if NoStarts(s, from, at) {
      assert LooksFrom(s, from, from);
      forall q | next <= q < at && q < |s| && LooksFrom(s, next, q) ensures !LineStarts(s, q) {
        assert LooksFrom(s, from, q);
      }
    }
    if !LineStarts(s, from) && NoStarts(s, next, at) {
      forall q | from <= q < at && q < |s| && LooksFrom(s, from, q) ensures !LineStarts(s, q) {
        if q != from { LooksAhead(s, next, q); }
      }
    }
  }

  ghost predicate SomeHoldsLast(s: string, from: nat, after: bool, at: nat) {
    exists p :: HoldsLast(s, from, after, p, at)
  }

  lemma HoldsLastOn(s: string, from: nat, after: bool, p: nat, at: nat)
    requires from < at && from < |s| && p != from
    ensures HoldsLast(s, from, after, p, at) <==>
            HoldsLast(s, Here(s, from).1, StillAfter(s, from, after), p, at)
  {
    if p < from {
      assert !LooksFrom(s, from, p) && !LooksFrom(s, Here(s, from).1, p);
    } else {
      assert LooksFrom(s, from, p) <==> LooksFrom(s, Here(s, from).1, p);
      assert AfterFrom(s, from, after, p) == AfterFrom(s, Here(s, from).1, StillAfter(s, from, after), p);
    }
  }

  lemma HoldsLastStep(s: string, from: nat, after: bool, at: nat)
    requires from < at && from < |s|
    ensures SomeHoldsLast(s, from, after, at) <==>
            || HoldsLast(s, from, after, from, at)
            || SomeHoldsLast(s, Here(s, from).1, StillAfter(s, from, after), at)
  {
    var next, still := Here(s, from).1, StillAfter(s, from, after);
    if SomeHoldsLast(s, from, after, at) {
      var p :| HoldsLast(s, from, after, p, at);
      if p != from { HoldsLastOn(s, from, after, p, at); }
    }
    if SomeHoldsLast(s, next, still, at) {
      var p :| HoldsLast(s, next, still, p, at);
      LooksAhead(s, next, p);
      HoldsLastOn(s, from, after, p, at);
    }
  }

  lemma {:induction false} AfterMeans(s: string, from: nat, after: bool, at: nat)
    ensures AfterFrom(s, from, after, at) <==>
            SomeHoldsLast(s, from, after, at) || (after && NoStarts(s, from, at))
    decreases if from < |s| then |s| - from else 0
  {
    if from < at && from < |s| {
      AfterMeans(s, Here(s, from).1, StillAfter(s, from, after), at);
      NoStartsStep(s, from, at);
      HoldsLastStep(s, from, after, at);
      assert LooksFrom(s, from, from);
    }
  }

  /** That is so exactly when the last line that a look started holds a definition
      where a block could start. */
  lemma AfterDefinitionMeans(s: string, at: nat)
    ensures AfterDefinition(s, at) <==> exists p :: HoldsLast(s, 0, false, p, at)
  {
    AfterMeans(s, 0, false, at);
  }

  // ---- The bracket that opens a label ----

  /** The brackets open after a look at `at`. */
  function Bracketed(s: string, at: nat, open: seq<nat>): seq<nat>
    requires at < |s|
  {
    if s[at] == '[' then open + [at] else if s[at] == ']' && open != [] then open[..|open| - 1] else open
  }

  /** The brackets open when the scan comes to `at`, the innermost last. */
  ghost function OpenFrom(s: string, from: nat, open: seq<nat>, at: nat): seq<nat>
    decreases if from < |s| then |s| - from else 0
  {
    if from >= at || from >= |s| then open else OpenFrom(s, Here(s, from).1, Bracketed(s, from, open), at)
  }

  /** The bracket that a closing one at `at` closes. */
  ghost function LabelOpen(s: string, at: nat): Option<nat> {
    var open := OpenFrom(s, 0, [], at);
    if open == [] then None else Some(open[|open| - 1])
  }

  /** The looks from `from` to `at` close `depth` brackets and those they open, and
      no other. */
  ghost predicate Balanced(s: string, from: nat, at: nat, depth: nat)
    decreases if from < |s| then |s| - from else 0
  {
    if from >= at || from >= |s| then depth == 0
    else if s[from] == '[' then Balanced(s, Here(s, from).1, at, depth + 1)
    else if s[from] == ']' then depth > 0 && Balanced(s, Here(s, from).1, at, depth - 1)
    else Balanced(s, Here(s, from).1, at, depth)
  }

  /** A bracket looked at before `at`, and nothing looked at between is left open
      or closes it. */
  ghost predicate OpensLabel(s: string, open: nat, at: nat) {
    open < at && Looked(s, open) && s[open] == '[' && Balanced(s, Here(s, open).1, at, 0)
  }

  ghost predicate Rising(open: seq<nat>, below: nat) {
    && (forall i :: 0 <= i < |open| ==> open[i] < below)
    && forall i, j :: 0 <= i < j < |open| ==> open[i] < open[j]
  }

  lemma BracketedRises(s: string, at: nat, open: seq<nat>)
    requires at < |s| && Rising(open, at)
    ensures Rising(Bracketed(s, at, open), Here(s, at).1)
  {
  }

  ghost predicate Top(open: seq<nat>, p: nat) {
    open != [] && open[|open| - 1] == p
  }

  /** Of the brackets open at `from`, those the walk leaves are the first of them,
      and what it adds comes later. */
  lemma {:induction false} OpenSince(s: string, from: nat, open: seq<nat>, at: nat, p: nat)
    requires Rising(open, from) && Top(OpenFrom(s, from, open, at), p)
    ensures p in open || p >= from
    decreases if from < |s| then |s| - from else 0
  {
    if from < at && from < |s| {
      BracketedRises(s, from, open);
      OpenSince(s, Here(s, from).1, Bracketed(s, from, open), at, p);
    }
  }

  /** One of the brackets open at `from` is the innermost at `at` just when those
      above it are closed, and it is not. */
  lemma {:induction false} TopStays(s: string, from: nat, open: seq<nat>, at: nat, k: nat)
    requires Rising(open, from) && k < |open|
    ensures Top(OpenFrom(s, from, open, at), open[k]) <==> Balanced(s, from, at, |open| - 1 - k)
    decreases if from < |s| then |s| - from else 0
  {
    if from < at && from < |s| {
      var next, more := Here(s, from).1, Bracketed(s, from, open);
      BracketedRises(s, from, open);
      if k < |more| {
        assert more[k] == open[k];
        TopStays(s, next, more, at, k);
      } else if Top(OpenFrom(s, from, open, at), open[k]) {
        OpenSince(s, next, more, at, open[k]);
      }
    }
  }

  lemma {:induction false} TopComes(s: string, from: nat, open: seq<nat>, at: nat, p: nat)
    requires Rising(open, from) && from <= p < at && p < |s| && LooksFrom(s, from, p) && s[p] == '['
    ensures Top(OpenFrom(s, from, open, at), p) <==> Balanced(s, Here(s, p).1, at, 0)
    decreases |s| - from
  {
    var next, more := Here(s, from).1, Bracketed(s, from, open);
    BracketedRises(s, from, open);
    if p == from {
      TopStays(s, next, more, at, |open|);
    } else {
      LooksAhead(s, next, p);
      TopComes(s, next, more, at, p);
    }
  }

  ghost predicate AllLooked(s: string, open: seq<nat>) {
    forall i :: 0 <= i < |open| ==> Looked(s, open[i]) && s[open[i]] == '['
  }

  lemma {:induction false} OpenLooked(s: string, from: nat, open: seq<nat>, at: nat)
    requires AllLooked(s, open) && (forall i :: 0 <= i < |open| ==> open[i] < at) && LooksFrom(s, 0, from)
    ensures var left := OpenFrom(s, from, open, at);
            AllLooked(s, left) && forall i :: 0 <= i < |left| ==> left[i] < at
    decreases if from < |s| then |s| - from else 0
  {
    if from < at && from < |s| {
      LooksOn(s, 0, from);
      OpenLooked(s, Here(s, from).1, Bracketed(s, from, open), at);
    }
  }

  /** The bracket found along the scan is the one that nothing between closes, and
      none is found just when there is no such bracket. */
  lemma LabelOpenMeans(s: string, at: nat, open: nat)
    ensures LabelOpen(s, at) == Some(open) <==> OpensLabel(s, open, at)
  {
    OpenLooked(s, 0, [], at);
    if open < at && Looked(s, open) && s[open] == '[' { TopComes(s, 0, [], at, open); }
  }

  // ---- The line a link starts on ----

  lemma {:induction false} SomeNewlines(s: string)
    requires '\n' in s
    ensures Newlines(s) > 0
  {
    if s[|s| - 1] != '\n' { SomeNewlines(s[..|s| - 1]); }
  }

  lemma SameLineIff(s: string, a: nat, b: nat)
    requires a <= b <= |s|
    ensures LineOf(s, a) == LineOf(s, b) <==> '\n' !in s[a..b]
  {
    LineAdvances(s, a, b);
    if '\n' in s[a..b] { SomeNewlines(s[a..b]); } else { NoNewlines(s[a..b]); }
  }

  lemma BracketInLine(kept: seq<string>, s: string, open: nat)
    requires AllOneLine(kept) && s == Unlines(kept) && open < |s| && s[open] == '['
    ensures LineOf(s, open) <= |kept| && '[' in kept[LineOf(s, open) - 1]
  {
    var c := Placed(kept, s, open);
  }

  /** A look finds the link's destination at `at`, on the line it carries. Nothing
      before opens a label that ends there; or a bracket does, and the line carried
      is the bracket's just when no newline is between. */
  ghost predicate LabelledLink(lines: seq<string>, s: string, at: nat, item: Item) {
    && Looked(s, at) && LinkItem(s, at, item)
    && match LabelOpen(s, at)
       case None => forall open :: !OpensLabel(s, open, at)
       case Some(open) =>
         && OpensLabel(s, open, at) && LineOf(s, open) <= |lines| && '[' in lines[LineOf(s, open) - 1]
         && (item.line == LineOf(s, open) <==> '\n' !in s[open..at])
  }

  lemma LinkLabelled(lines: seq<string>, kept: seq<string>, s: string, at: nat, item: Item)
    requires Blanked(lines, kept) && s == Unlines(kept) && LinkItem(s, at, item) && Looked(s, at)
    ensures LabelledLink(lines, s, at, item)
  {
    forall open: nat ensures LabelOpen(s, at) == Some(open) <==> OpensLabel(s, open, at) { LabelOpenMeans(s, at, open); }
    var opening := LabelOpen(s, at);
    if opening.Some? {
      SameLineIff(s, opening.value, at);
      BracketInLine(kept, s, opening.value);
    }
  }

  /** Every link of the scan is a definition, on the line it carries, or has its
      destination there, and its label's bracket exactly when the label has no
      newline. */
  lemma LinkLines(text: string, item: Item)
    requires item in Items(Unlines(Kept(LinesOf(text))), 0, false) && item.Link?
    ensures var lines := LinesOf(text);
            OnDefinition(lines, item) || exists at :: LabelledLink(lines, Unlines(Kept(lines)), at, item)
  {
    var lines := LinesOf(text);
    LinesAreLines(text);
    KeptBlanks(lines);
    var p := ItemsFound(Unlines(Kept(lines)), 0, false, item);
    LinkCases(Unlines(Kept(lines)), p, item);
    LinkOrDefinition(lines, Kept(lines), Unlines(Kept(lines)), p, item);
  }

  lemma LinkCases(s: string, at: nat, item: Item)
    requires Found(s, at, item) && item.Link?
    ensures at < |s| && (DefinitionItem(s, at, item) || LinkItem(s, at, item))
  {
  }

  lemma LinkOrDefinition(lines: seq<string>, kept: seq<string>, s: string, at: nat, item: Item)
    requires Blanked(lines, kept) && s == Unlines(kept) && Looked(s, at)
    requires DefinitionItem(s, at, item) || LinkItem(s, at, item)
    ensures OnDefinition(lines, item) || LabelledLink(lines, s, at, item)
  {
    if DefinitionItem(s, at, item) {
      DefinitionWritten(lines, kept, s, at, item);
    } else {
      LinkLabelled(lines, kept, s, at, item);
    }
  }

  /** Where nothing is found the scan goes on. */
  lemma NothingHere(s: string, at: nat, afterDefinition: bool)
    requires at < |s| && s[at] != '\\' && s[at] != '`' && s[at] != ']'
    requires !LineStarts(s, at) || !BlockStarts(s, at, afterDefinition) || DefinitionTarget(LineFrom(s, at)).None?
    ensures Items(s, at, afterDefinition) ==
            Items(s, at + 1, if LineStarts(s, at) then false else afterDefinition)
  {
    HereNothing(s, at);
    assert DefinitionAt(s, at, afterDefinition).None?;
    var rest := Items(s, at + 1, if LineStarts(s, at) then false else afterDefinition);
    assert [] + [] + rest == rest;
  }

  lemma HereNothing(s: string, at: nat)
    requires at < |s| && s[at] != '\\' && s[at] != '`' && s[at] != ']'
    ensures Here(s, at) == ([], at + 1)
  {
  }

  lemma NoFenceOpens(line: string)
    requires line != "" && !IsSpace(line[0]) && line[0] != '`' && line[0] != '~'
    ensures Opens(line).None?
  {
  }

  /** Two lines of prose, the second not ended. */
  lemma TwoLines(first: string, last: string)
    requires OneLine(first) && OneLine(last) && last != "" && WithoutCr(first) == first
    requires Opens(first).None? && Opens(last).None?
    ensures Unlines(Kept(LinesOf(first + "\n" + last))) == first + "\n" + last + "\n"
  {
    LinesCons(first, last);
    assert Find(last, '\n') == |last| && LinesOf(last) == [last];
    var lines := [first] + [last];
    assert FenceAfter(lines, 0).None? && FenceAfter(lines, 1).None?;
    assert Kept(lines) == lines;
    assert lines[1..] == [last] && [last][1..] == [];
    assert Unlines([last]) == last + "\n" + "";
    assert first + "\n" + (last + "\n" + "") == first + "\n" + last + "\n";
  }

  lemma NoDefinition(line: string)
    requires line == "" || (line[0] != ' ' && line[0] != '[') || ']' !in line
    ensures DefinitionTarget(line).None?
  {
  }

  /** The characters of "[a\nb](c)\n". */
  predicate OverLines(s: string) {
    && |s| == 9 && s[0] == '[' && s[1] == 'a' && s[2] == '\n' && s[3] == 'b' && s[4] == ']' && s[5] == '('
    && s[6] == 'c' && s[7] == ')' && s[8] == '\n'
  }

  lemma OverLinesFirst(s: string)
    requires OverLines(s)
    ensures DefinitionTarget(LineFrom(s, 0)).None? && DefinitionTarget(LineFrom(s, 3)).None?
  {
    assert s[0..] == s;
    NewlineIs(s, 2);
    assert ']' !in s[0..2];
    NoDefinition(s[0..2]);
    var rest := s[3..];
    assert rest[0] == 'b' && rest[5] == '\n';
    NewlineIs(rest, 5);
    assert s[3..8][0] == 'b';
    NoDefinition(s[3..8]);
  }

  lemma OverLinesCounted(s: string)
    requires OverLines(s)
    ensures LineOf(s, 0) == 1 && LineOf(s, 4) == 2
  {
    assert s[..0] == "";
    NextLine(s, 0);
    NextLine(s, 1);
    NextLine(s, 2);
    NextLine(s, 3);
  }

  lemma OverLinesLink(s: string)
    requires OverLines(s)
    ensures Here(s, 4) == ([Link(2, [s[6]])], 8)
  {
    OverLinesCounted(s);
    assert DestinationEnd(s, 6) == 7;
    assert s[6..7] == [s[6]];
  }

  lemma OverLinesItems(s: string)
    requires OverLines(s)
    ensures Items(s, 0, false) == [Link(2, [s[6]])]
  {
    OverLinesFirst(s);
    NothingHere(s, 0, false);
    NothingHere(s, 1, false);
    NothingHere(s, 2, false);
    NothingHere(s, 3, false);
    OverLinesLast(s);
  }

  lemma OverLinesLast(s: string)
    requires OverLines(s)
    ensures Items(s, 4, false) == [Link(2, [s[6]])]
  {
    OverLinesLink(s);
    NothingHere(s, 8, false);
    assert Items(s, 9, false) == [] && Defined(s, 4, false) == [];
  }

  /** One look that changes no bracket. */
  lemma OpenPast(s: string, from: nat, open: seq<nat>, at: nat, next: nat)
    requires from < at && from < |s| && s[from] != '[' && s[from] != ']' && Here(s, from).1 == next
    ensures OpenFrom(s, from, open, at) == OpenFrom(s, next, open, at)
  {
  }

  lemma OpenAt(s: string, from: nat, at: nat)
    requires from < at && from < |s| && s[from] == '['
    ensures OpenFrom(s, from, [], at) == OpenFrom(s, from + 1, [from], at)
  {
    HereNothing(s, from);
    assert [] + [from] == [from];
  }

  lemma OverLinesLabel(s: string)
    requires OverLines(s)
    ensures LabelOpen(s, 4) == Some(0)
  {
    OpenAt(s, 0, 4);
    HereNothing(s, 1);
    HereNothing(s, 2);
    HereNothing(s, 3);
    OpenPast(s, 1, [0], 4, 2);
    OpenPast(s, 2, [0], 4, 3);
    OpenPast(s, 3, [0], 4, 4);
  }

  /** A label over two lines, `[a` and `b](c)`: the link is reported on the second
      although its label opens on the first. */
  lemma LabelOverLines(first: string, last: string, s: string)
    requires first == "[a" && last == "b](c)" && s == first + "\n" + last + "\n"
    ensures Unlines(Kept(LinesOf(first + "\n" + last))) == s && Items(s, 0, false) == [Link(2, "c")]
    ensures LabelOpen(s, 4) == Some(0) && LineOf(s, 0) == 1
  {
    NoFenceOpens(first);
    NoFenceOpens(last);
    TwoLines(first, last);
    assert OverLines(s);
    OverLinesItems(s);
    OverLinesLabel(s);
    OverLinesCounted(s);
  }

  // ---- The same with an escaped bracket in the label ----

  /** The characters of `[a`, a newline, `b\[c](d)` and a newline. */
  predicate Escaped(s: string) {
    && |s| == 12 && s[0] == '[' && s[1] == 'a' && s[2] == '\n' && s[3] == 'b' && s[4] == '\\' && s[5] == '['
    && s[6] == 'c' && s[7] == ']' && s[8] == '(' && s[9] == 'd' && s[10] == ')' && s[11] == '\n'
  }

  lemma EscapeHere(s: string, at: nat)
    requires at < |s| && s[at] == '\\'
    ensures Here(s, at) == ([], at + 2)
  {
  }

  lemma EscapePassed(s: string, at: nat, afterDefinition: bool)
    requires at < |s| && s[at] == '\\' && !LineStarts(s, at)
    ensures Items(s, at, afterDefinition) == Items(s, at + 2, afterDefinition)
  {
    EscapeHere(s, at);
    var rest := Items(s, at + 2, afterDefinition);
    assert [] + [] + rest == rest;
  }

  lemma EscapedFirst(s: string)
    requires Escaped(s)
    ensures DefinitionTarget(LineFrom(s, 0)).None? && DefinitionTarget(LineFrom(s, 3)).None?
  {
    assert s[0..] == s;
    NewlineIs(s, 2);
    assert ']' !in s[0..2];
    NoDefinition(s[0..2]);
    var rest := s[3..];
    assert rest[0] == 'b' && rest[8] == '\n';
    NewlineIs(rest, 8);
    assert s[3..11][0] == 'b';
    NoDefinition(s[3..11]);
  }

  lemma EscapedCounted(s: string)
    requires Escaped(s)
    ensures LineOf(s, 0) == 1 && LineOf(s, 7) == 2
  {
    assert s[..0] == "";
    NextLine(s, 0);
    NextLine(s, 1);
    NextLine(s, 2);
    assert '\n' !in s[3..7];
    SameLine(s, 3, 7);
  }

  lemma EscapedLast(s: string)
    requires Escaped(s)
    ensures Items(s, 7, false) == [Link(2, [s[9]])]
  {
    EscapedCounted(s);
    assert DestinationEnd(s, 9) == 10;
    assert s[9..10] == [s[9]];
    assert Here(s, 7) == ([Link(2, [s[9]])], 11);
    NothingHere(s, 11, false);
    assert Items(s, 12, false) == [] && Defined(s, 7, false) == [];
  }

  lemma EscapedItems(s: string)
    requires Escaped(s)
    ensures Items(s, 0, false) == [Link(2, [s[9]])]
  {
    EscapedFirst(s);
    NothingHere(s, 0, false);
    NothingHere(s, 1, false);
    NothingHere(s, 2, false);
    NothingHere(s, 3, false);
    EscapePassed(s, 4, false);
    NothingHere(s, 6, false);
    EscapedLast(s);
  }

  lemma EscapedLabel(s: string)
    requires Escaped(s)
    ensures LabelOpen(s, 7) == Some(0)
  {
    OpenAt(s, 0, 7);
    HereNothing(s, 1);
    HereNothing(s, 2);
    HereNothing(s, 3);
    EscapeHere(s, 4);
    HereNothing(s, 6);
    OpenPast(s, 1, [0], 7, 2);
    OpenPast(s, 2, [0], 7, 3);
    OpenPast(s, 3, [0], 7, 4);
    OpenPast(s, 4, [0], 7, 6);
    OpenPast(s, 6, [0], 7, 7);
  }

  /** An escaped bracket in the label opens nothing: the link of `[a` and `b\[c](d)`
      is reported on the second line, and its label opens on the first. */
  lemma EscapeInLabel(first: string, last: string, s: string)
    requires first == "[a" && last == "b\\[c](d)" && s == first + "\n" + last + "\n"
    ensures Unlines(Kept(LinesOf(first + "\n" + last))) == s && Items(s, 0, false) == [Link(2, "d")]
    ensures LabelOpen(s, 7) == Some(0) && LineOf(s, 0) == 1
  {
    NoFenceOpens(first);
    NoFenceOpens(last);
    TwoLines(first, last);
    assert Escaped(s);
    EscapedItems(s);
    EscapedLabel(s);
    EscapedCounted(s);
  }
}
