/** What the lines of a document look like that the scan treats in their own way
    (xtask/src/docs.rs): link definitions, the fences of code blocks, and the lines
    after which a block can start. */
module LineForms {
  import opened Basics
  import opened Spaces
  import opened Texts
  import opened Scan

  // ---- Definitions ----

  ghost predicate IsLabel(text: string) {
    && (exists k :: 0 <= k < |text| && !IsSpace(text[k]))
    && '[' !in text && ']' !in text && text[0] != '^'
  }

  ghost predicate IsTarget(target: string) {
    target != "" && !IsSpace(target[0]) && !IsSpace(target[|target| - 1])
  }

  /** `line` is `lead`, at most three spaces, the label in brackets, a colon and the
      rest; the label is not blank, holds no bracket and does not start with a
      caret; and the rest is the target with white space around it. */
  ghost predicate DefinedBy(line: string, lead: string, name: string, rest: string, target: string) {
    && line == lead + "[" + name + "]:" + rest
    && |lead| <= 3 && (forall k :: 0 <= k < |lead| ==> lead[k] == ' ')
    && IsLabel(name) && IsTarget(target) && Padded(rest, target)
  }

  /** `line` defines a label to stand for `target`. */
  ghost predicate IsDefinition(line: string, target: string) {
    exists lead, name, rest :: DefinedBy(line, lead, name, rest, target)
  }

  /** The same of what follows the bracket. */
  ghost predicate LabelledBy(bracketed: string, name: string, rest: string, target: string) {
    bracketed == name + "]:" + rest && IsLabel(name) && IsTarget(target) && Padded(rest, target)
  }

  lemma LabelHolds(name: string)
    ensures ']' !in name ==> (IsLabel(name) <==> !(Trim(name) == "" || '[' in name || name[0] == '^'))
  {
    BlankTrims(name);
  }

  lemma LabelledForward(bracketed: string, target: string) returns (name: string, rest: string)
    requires LabelledTarget(bracketed) == Some(target)
    ensures LabelledBy(bracketed, name, rest, target)
  {
    var close := Find(bracketed, ']');
    name, rest := bracketed[..close], bracketed[close + 2..];
    LabelHolds(name);
    TrimMeans(rest, target);
  }

  lemma LabelEnds(bracketed: string, name: string, rest: string)
    requires bracketed == name + "]:" + rest && ']' !in name
    ensures Find(bracketed, ']') == |name| && bracketed[|name| + 1] == ':'
    ensures bracketed[..|name|] == name && bracketed[|name| + 2..] == rest
  {
    assert bracketed[|name|] == ']';
    assert forall k :: 0 <= k < |name| ==> bracketed[k] == name[k] && name[k] in name;
  }

  lemma LabelledBackward(bracketed: string, name: string, rest: string, target: string)
    requires LabelledBy(bracketed, name, rest, target)
    ensures LabelledTarget(bracketed) == Some(target)
  {
    LabelEnds(bracketed, name, rest);
    LabelHolds(name);
    assert bracketed[0] == name[0];
    TrimMeans(rest, target);
  }

  lemma SpacesRun(line: string, lead: string, more: string)
    requires line == lead + "[" + more && forall k :: 0 <= k < |lead| ==> lead[k] == ' '
    ensures RunLength(line, 0, ' ') == |lead| && line[|lead|] == '[' && line[|lead| + 1..] == more
  {
    assert line[|lead|] == '[';
    assert forall k :: 0 <= k < |lead| ==> line[k] == lead[k];
  }

  lemma PutTogether(line: string, indent: nat, name: string, rest: string)
    requires indent < |line| && line[indent] == '[' && line[indent + 1..] == name + "]:" + rest
    ensures line == line[..indent] + "[" + name + "]:" + rest
  {
    var before := line[..indent] + "[";
    assert line == before + line[indent + 1..];
    assert before + (name + "]:" + rest) == before + name + "]:" + rest;
  }

  lemma DefinedFrom(line: string, indent: nat, name: string, rest: string, target: string)
    requires indent < |line| && indent <= 3 && line[indent] == '[' && forall k :: 0 <= k < indent ==> line[k] == ' '
    requires LabelledBy(line[indent + 1..], name, rest, target)
    ensures IsDefinition(line, target)
  {
    PutTogether(line, indent, name, rest);
    assert DefinedBy(line, line[..indent], name, rest, target);
  }

  lemma TargetIsDefined(line: string, target: string)
    requires DefinitionTarget(line) == Some(target)
    ensures IsDefinition(line, target)
  {
    var indent := RunLength(line, 0, ' ');
    var name, rest := LabelledForward(line[indent + 1..], target);
    DefinedFrom(line, indent, name, rest, target);
  }

  lemma DefinedIsTarget(line: string, lead: string, name: string, rest: string, target: string)
    requires DefinedBy(line, lead, name, rest, target)
    ensures DefinitionTarget(line) == Some(target)
  {
    var bracketed := name + "]:" + rest;
    assert line == lead + "[" + bracketed;
    SpacesRun(line, lead, bracketed);
    LabelledBackward(bracketed, name, rest, target);
  }

  /** A line is read as a definition exactly when it is one, and of what it defines. */
  lemma DefinitionMeans(line: string, target: string)
    ensures DefinitionTarget(line) == Some(target) <==> IsDefinition(line, target)
  {
    if DefinitionTarget(line) == Some(target) { TargetIsDefined(line, target); }
    if IsDefinition(line, target) {
      var lead, name, rest :| DefinedBy(line, lead, name, rest, target);
      DefinedIsTarget(line, lead, name, rest, target);
    }
  }

  // ---- Fences ----

  ghost function Marks(mark: char, n: nat): string {
    seq(n, _ => mark)
  }

  /** `line` is white space, three or more of one mark, and a rest that does not go
      on with it. */
  ghost predicate OpenedBy(line: string, lead: string, fence: Fence, rest: string) {
    && line == lead + Marks(fence.mark, fence.length) + rest
    && (fence.mark == '`' || fence.mark == '~') && fence.length >= 3
    && (forall k :: 0 <= k < |lead| ==> IsSpace(lead[k])) && (rest == "" || rest[0] != fence.mark)
  }

  ghost predicate IsOpening(line: string, fence: Fence) {
    exists lead, rest :: OpenedBy(line, lead, fence, rest)
  }

  /** `line` is white space, at least as many of the fence's mark, and white space
      of ASCII. */
  ghost predicate ClosedBy(line: string, lead: string, n: nat, fence: Fence, rest: string) {
    && line == lead + Marks(fence.mark, n) + rest && n >= fence.length
    && (forall k :: 0 <= k < |lead| ==> IsSpace(lead[k]))
    && (forall k :: 0 <= k < |rest| ==> rest[k] as int in {9, 10, 12, 13, 32})
  }

  ghost predicate IsClosing(line: string, fence: Fence) {
    exists lead, n, rest :: ClosedBy(line, lead, n, fence, rest)
  }

  lemma StartOf(line: string, lead: string, more: string)
    requires Blank(lead) && line == lead + more && (more == "" || !IsSpace(more[0]))
    ensures TrimStart(line) == more
  {
    TrimStartBlank(lead, more);
  }

  lemma RunOf(text: string, mark: char, n: nat, rest: string)
    requires text == Marks(mark, n) + rest && (rest == "" || rest[0] != mark)
    ensures RunLength(text, 0, mark) == n && text[n..] == rest
  {
    assert forall k :: 0 <= k < n ==> text[k] == mark;
    assert n < |text| ==> text[n] == rest[0];
  }

  /** A line is its white space, the run of a mark after it, and the rest. */
  lemma InThree(line: string, mark: char) returns (lead: string, rest: string)
    ensures var n := RunLength(TrimStart(line), 0, mark);
            Blank(lead) && line == lead + Marks(mark, n) + rest && rest == TrimStart(line)[n..]
  {
    var k := TrimStartAt(line);
    var trimmed := TrimStart(line);
    var n := RunLength(trimmed, 0, mark);
    lead, rest := line[..k], trimmed[n..];
    Apart(line, k, trimmed, mark, n);
  }

  lemma Apart(line: string, k: nat, more: string, mark: char, n: nat)
    requires k <= |line| && more == line[k..] && n <= |more| && forall i :: 0 <= i < n ==> more[i] == mark
    ensures line == line[..k] + Marks(mark, n) + more[n..]
  {
    assert more[..n] == Marks(mark, n);
    assert line == line[..k] + more[..n] + more[n..];
  }

  lemma OpeningIs(line: string, lead: string, fence: Fence, rest: string)
    requires OpenedBy(line, lead, fence, rest)
    ensures Opens(line) == Some(fence)
  {
    var more := Marks(fence.mark, fence.length) + rest;
    assert line == lead + more && more[0] == fence.mark;
    StartOf(line, lead, more);
    RunOf(more, fence.mark, fence.length, rest);
  }

  /** A line opens a fence, outside one, exactly when it has this form. */
  lemma OpensMeans(line: string, fence: Fence)
    ensures Opens(line) == Some(fence) <==> IsOpening(line, fence)
  {
    if Opens(line) == Some(fence) {
      var lead, rest := InThree(line, fence.mark);
      assert OpenedBy(line, lead, fence, rest);
    }
    if IsOpening(line, fence) {
      var lead, rest :| OpenedBy(line, lead, fence, rest);
      OpeningIs(line, lead, fence, rest);
    }
  }

  lemma ClosingIs(line: string, lead: string, n: nat, fence: Fence, rest: string)
    requires (fence.mark == '`' || fence.mark == '~') && fence.length > 0 && ClosedBy(line, lead, n, fence, rest)
    ensures Closes(line, fence)
  {
    var more := Marks(fence.mark, n) + rest;
    assert line == lead + more && more[0] == fence.mark;
    StartOf(line, lead, more);
    assert rest != "" ==> rest[0] as int in {9, 10, 12, 13, 32};
    RunOf(more, fence.mark, n, rest);
  }

  /** A line closes an open fence exactly when it has this form. */
  lemma ClosesMeans(line: string, fence: Fence)
    requires (fence.mark == '`' || fence.mark == '~') && fence.length > 0
    ensures Closes(line, fence) <==> IsClosing(line, fence)
  {
    if Closes(line, fence) {
      var n := RunLength(TrimStart(line), 0, fence.mark);
      var lead, rest := InThree(line, fence.mark);
      assert ClosedBy(line, lead, n, fence, rest);
    }
    if IsClosing(line, fence) {
      var lead, n, rest :| ClosedBy(line, lead, n, fence, rest);
      ClosingIs(line, lead, n, fence, rest);
    }
  }

  /** Line `o`, where no fence is open, opens one that no line before `n` closes. */
  ghost predicate OpenSince(lines: seq<string>, o: nat, n: nat, fence: Fence)
    requires n <= |lines|
  {
    && o < n && FenceAfter(lines, o).None? && IsOpening(lines[o], fence)
    && forall k :: o < k < n ==> !IsClosing(lines[k], fence)
  }

  lemma {:induction false} FenceMeans(lines: seq<string>, n: nat, fence: Fence)
    requires n <= |lines|
    ensures FenceAfter(lines, n) == Some(fence) <==> exists o: nat :: OpenSince(lines, o, n, fence)
  {
    if n > 0 {
      var m := n - 1;
      var before := FenceAfter(lines, m);
      FenceMeans(lines, m, fence);
      OpensMeans(lines[m], fence);
      if before.None? {
        FenceOpens(lines, m, n, fence);
      } else {
        FenceMeans(lines, m, before.value);
        FenceStays(lines, m, n, before.value, fence);
      }
    }
  }

  lemma FenceOpens(lines: seq<string>, m: nat, n: nat, fence: Fence)
    requires n == m + 1 <= |lines| && FenceAfter(lines, m).None?
    requires !exists o: nat :: OpenSince(lines, o, m, fence)
    ensures IsOpening(lines[m], fence) <==> exists o: nat :: OpenSince(lines, o, n, fence)
  {
    if IsOpening(lines[m], fence) { assert OpenSince(lines, m, n, fence); }
    if o: nat :| OpenSince(lines, o, n, fence) && o < m { assert OpenSince(lines, o, m, fence); }
  }

  lemma FenceNext(lines: seq<string>, m: nat, open: Fence)
    requires m < |lines| && FenceAfter(lines, m) == Some(open) && exists line :: IsOpening(line, open)
    ensures FenceAfter(lines, m + 1) == if IsClosing(lines[m], open) then None else Some(open)
  {
    ClosesMeans(lines[m], open);
  }

  lemma FenceStays(lines: seq<string>, m: nat, n: nat, open: Fence, fence: Fence)
    requires n == m + 1 <= |lines| && FenceAfter(lines, m) == Some(open)
    requires exists o: nat :: OpenSince(lines, o, m, open)
    requires (exists o: nat :: OpenSince(lines, o, m, fence)) ==> open == fence
    ensures FenceAfter(lines, n) == Some(fence) <==> exists o: nat :: OpenSince(lines, o, n, fence)
  {
    var at: nat :| OpenSince(lines, at, m, open);
    FenceNext(lines, m, open);
    StaysOpen(lines, at, m, n, open, fence);
  }

  lemma StaysOpen(lines: seq<string>, at: nat, m: nat, n: nat, open: Fence, fence: Fence)
    requires n == m + 1 <= |lines| && OpenSince(lines, at, m, open) && FenceAfter(lines, m) == Some(open)
    requires (exists o: nat :: OpenSince(lines, o, m, fence)) ==> open == fence
    ensures open == fence && !IsClosing(lines[m], open) <==> exists o: nat :: OpenSince(lines, o, n, fence)
  {
    if open == fence && !IsClosing(lines[m], open) { assert OpenSince(lines, at, n, fence); }
    if o: nat :| OpenSince(lines, o, n, fence) { assert OpenSince(lines, o, m, fence); }
  }

  ghost predicate InBlock(lines: seq<string>, i: nat)
    requires i < |lines|
  {
    (exists o: nat, fence :: OpenSince(lines, o, i, fence)) || exists fence :: IsOpening(lines[i], fence)
  }

  /** The lines left empty are those from a line that opens a fence, where none is
      open, to the first after it that closes it, or to the end. */
  lemma FencedMeans(lines: seq<string>, i: nat)
    requires i < |lines|
    ensures Kept(lines)[i] == if InBlock(lines, i) then "" else lines[i]
    ensures Fenced(lines, i) <==> InBlock(lines, i)
  {
    if FenceAfter(lines, i).Some? { FenceMeans(lines, i, FenceAfter(lines, i).value); }
    if o: nat, fence :| OpenSince(lines, o, i, fence) { FenceMeans(lines, i, fence); }
    if Opens(lines[i]).Some? { OpensMeans(lines[i], Opens(lines[i]).value); }
    if fence :| IsOpening(lines[i], fence) { OpensMeans(lines[i], fence); }
  }

  // ---- Where a block can start ----

  lemma {:induction false} LastLineAt(s: string) returns (p: nat)
    ensures p <= |s| && LastLine(s) == s[p..] && '\n' !in s[p..] && (p == 0 || s[p - 1] == '\n')
  {
    p := |s|;
    if s != "" && s[|s| - 1] != '\n' {
      var n := |s| - 1;
      p := LastLineAt(s[..n]);
      assert s[p..] == s[..n][p..] + [s[n]];
    }
  }

  /** The line from `p` to `end`, without its newline, is blank or its first character
      that is not white space is a hash sign. */
  ghost predicate BlankOrHeading(s: string, p: nat, end: nat)
    requires p <= end <= |s|
  {
    || (forall k :: p <= k < end ==> IsSpace(s[k]))
    || (exists q :: p <= q < end && s[q] == '#' && forall k :: p <= k < q ==> IsSpace(s[k]))
  }

  lemma TrimmedStart(s: string)
    ensures Trim(s) == "" || Trim(s)[0] == '#' <==> BlankOrHeading(s, 0, |s|)
  {
    TrimSplits(s);
    var lead, trail :| Blank(lead) && Blank(trail) && s == lead + Trim(s) + trail;
    var t := Trim(s);
    if t == "" {
      BlankTrims(s);
    } else {
      assert s[|lead|] == t[0] && forall k :: 0 <= k < |lead| ==> s[k] == lead[k];
    }
  }

  /** The line before the one at `at` is from `p` on. */
  ghost predicate LineBefore(s: string, p: nat, at: nat) {
    p < at <= |s| && (p == 0 || s[p - 1] == '\n') && '\n' !in s[p..at - 1]
  }

  lemma NoEarlierLine(s: string, q: nat, p: nat, at: nat)
    requires LineBefore(s, p, at) && q < p
    ensures !LineBefore(s, q, at)
  {
    assert s[q..at - 1][p - 1 - q] == s[p - 1];
  }

  lemma OneLineBefore(s: string, q: nat, p: nat, at: nat)
    requires LineBefore(s, p, at) && LineBefore(s, q, at)
    ensures p == q
  {
    if q < p {
      NoEarlierLine(s, q, p, at);
    } else if p < q {
      NoEarlierLine(s, p, q, at);
    }
  }

  lemma LineBeforeIs(s: string, at: nat) returns (p: nat)
    requires 0 < at <= |s|
    ensures LineBefore(s, p, at) && LastLine(s[..at - 1]) == s[p..at - 1]
  {
    var before := s[..at - 1];
    p := LastLineAt(before);
    assert before[p..] == s[p..at - 1];
  }

  lemma HeadingOrBlank(s: string, p: nat, end: nat)
    requires p <= end <= |s|
    ensures Trim(s[p..end]) == "" || Trim(s[p..end])[0] == '#' <==> BlankOrHeading(s, p, end)
  {
    TrimmedStart(s[p..end]);
    SameHeading(s, p, end);
  }

  /** A block can start on the first line, on one after a definition, and after a
      line that is blank or a heading. */
  lemma BlockStartsMeans(s: string, at: nat, afterDefinition: bool)
    requires at <= |s|
    ensures BlockStarts(s, at, afterDefinition) <==>
            at == 0 || afterDefinition || exists p: nat :: LineBefore(s, p, at) && BlankOrHeading(s, p, at - 1)
  {
    if at > 0 {
      var p := LineBeforeIs(s, at);
      HeadingOrBlank(s, p, at - 1);
      if q: nat :| LineBefore(s, q, at) && BlankOrHeading(s, q, at - 1) { OneLineBefore(s, q, p, at); }
    }
  }

  lemma SameHeading(s: string, p: nat, end: nat)
    requires p <= end <= |s|
    ensures BlankOrHeading(s[p..end], 0, end - p) <==> BlankOrHeading(s, p, end)
  {
    var line := s[p..end];
    assert forall k :: 0 <= k < |line| ==> line[k] == s[p + k];
    assert forall k :: p <= k < end ==> s[k] == line[k - p];
    if q :| p <= q < end && s[q] == '#' && forall k :: p <= k < q ==> IsSpace(s[k]) {
      assert line[q - p] == '#' && forall k :: 0 <= k < q - p ==> IsSpace(line[k]);
    }
    if q :| 0 <= q < end - p && line[q] == '#' && forall k :: 0 <= k < q ==> IsSpace(line[k]) {
      assert s[p + q] == '#' && forall k :: p <= k < p + q ==> IsSpace(s[k]);
    }
  }
}
