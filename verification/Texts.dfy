/** Rust's `split(',')` and `lines()`. */
module Texts {
  import opened Basics

  /** The pieces of `s` between commas. */
  function Pieces(s: string): (pieces: seq<string>)
    ensures |pieces| > 0
  {
    if s == [] then [""]
    else
      var rest := Pieces(s[1..]);
      if s[0] == ',' then [""] + rest else [[s[0]] + rest[0]] + rest[1..]
  }

  function Joined(pieces: seq<string>): string
    requires |pieces| > 0
  {
    if |pieces| == 1 then pieces[0] else pieces[0] + "," + Joined(pieces[1..])
  }

  /** Splitting loses nothing, and no piece holds a comma. */
  lemma {:induction false} PiecesJoined(s: string)
    ensures Joined(Pieces(s)) == s
    ensures forall k :: 0 <= k < |Pieces(s)| ==> ',' !in Pieces(s)[k]
  {
    if s != [] {
      PiecesJoined(s[1..]);
      var rest := Pieces(s[1..]);
      assert s == [s[0]] + s[1..];
      if s[0] == ',' {
        assert ([""] + rest)[1..] == rest;
      } else {
        var pieces := [[s[0]] + rest[0]] + rest[1..];
        assert pieces[1..] == rest[1..];
      }
    }
  }

  // ---- Lines ----

  predicate EndsWith(text: string, c: char) {
    |text| > 0 && text[|text| - 1] == c
  }

  function WithoutCr(line: string): string {
    if EndsWith(line, '\r') then line[..|line| - 1] else line
  }

  /** The lines of `text`, each ended by a newline, with or without a carriage
      return before it; the last need not be ended. */
  function LinesOf(text: string): seq<string>
    decreases |text|
  {
    if text == "" then []
    else
      var n := Find(text, '\n');
      if n == |text| then [text] else [WithoutCr(text[..n])] + LinesOf(text[n + 1..])
  }

  function Unlines(lines: seq<string>): string {
    if lines == [] then "" else lines[0] + "\n" + Unlines(lines[1..])
  }

  lemma {:induction false} UnlinesSnoc(lines: seq<string>, line: string)
    ensures Unlines(lines + [line]) == Unlines(lines) + line + "\n"
  {
    if lines == [] {
      assert lines + [line] == [line] && Unlines([line]) == line + "\n" + "";
    } else {
      assert (lines + [line])[1..] == lines[1..] + [line];
      UnlinesSnoc(lines[1..], line);
    }
  }

  function Stripped(lines: seq<string>): (r: seq<string>)
    ensures |r| == |lines|
  {
    seq(|lines|, k requires 0 <= k < |lines| => WithoutCr(lines[k]))
  }

  ghost predicate OneLine(s: string) {
    '\n' !in s
  }

  ghost predicate AllOneLine(lines: seq<string>) {
    forall k :: 0 <= k < |lines| ==> OneLine(lines[k])
  }

  lemma NewlineIs(text: string, n: nat)
    requires n < |text| && text[n] == '\n' && forall i :: 0 <= i < n ==> text[i] != '\n'
    ensures Find(text, '\n') == n
  {
  }

  lemma LinesCons(first: string, rest: string)
    requires OneLine(first)
    ensures LinesOf(first + "\n" + rest) == [WithoutCr(first)] + LinesOf(rest)
  {
    var text := first + "\n" + rest;
    assert forall i :: 0 <= i < |first| ==> text[i] == first[i];
    NewlineIs(text, |first|);
    assert text[..|first|] == first && text[|first| + 1..] == rest;
  }

  lemma {:induction false} LinesOfUnlines(lines: seq<string>, b: string)
    requires AllOneLine(lines)
    ensures LinesOf(Unlines(lines) + b) == Stripped(lines) + LinesOf(b)
  {
    if lines == [] {
      assert Unlines(lines) + b == b;
    } else {
      UnlinesCons(lines, b);
      LinesCons(lines[0], Unlines(lines[1..]) + b);
      LinesOfUnlines(lines[1..], b);
      StrippedCons(lines, LinesOf(b));
    }
  }

  lemma UnlinesCons(lines: seq<string>, b: string)
    requires lines != []
    ensures Unlines(lines) + b == lines[0] + "\n" + (Unlines(lines[1..]) + b)
  {
  }

  lemma StrippedCons(lines: seq<string>, more: seq<string>)
    requires lines != []
    ensures Stripped(lines) + more == [WithoutCr(lines[0])] + (Stripped(lines[1..]) + more)
  {
    assert Stripped(lines) == [WithoutCr(lines[0])] + Stripped(lines[1..]);
  }

  /** A text that is empty or ends in a newline is lines with their newlines. */
  lemma {:induction false} Finished(text: string) returns (lines: seq<string>)
    requires text == "" || EndsWith(text, '\n')
    ensures AllOneLine(lines) && text == Unlines(lines)
    decreases |text|
  {
    lines := [];
    if text != "" {
      var n := Find(text, '\n');
      assert n < |text| by {
        assert text[|text| - 1] == '\n';
      }
      var rest := Finished(text[n + 1..]);
      lines := [text[..n]] + rest;
      assert text == text[..n] + "\n" + text[n + 1..];
    }
  }

  /** The lines of a text put after a finished one follow its lines. */
  lemma LinesOfSum(a: string, b: string)
    requires a == "" || EndsWith(a, '\n')
    ensures LinesOf(a + b) == LinesOf(a) + LinesOf(b)
  {
    var lines := Finished(a);
    LinesOfUnlines(lines, b);
    LinesOfUnlines(lines, "");
    assert a + "" == a && Stripped(lines) + [] == Stripped(lines);
  }

  lemma OneLineFirst(first: string, rest: seq<string>)
    requires OneLine(first) && AllOneLine(rest)
    ensures AllOneLine([WithoutCr(first)] + rest)
  {
  }

  lemma {:induction false} LinesAreLines(text: string)
    ensures AllOneLine(LinesOf(text))
    decreases |text|
  {
    if text != "" {
      var n := Find(text, '\n');
      if n < |text| {
        LinesAreLines(text[n + 1..]);
        OneLineFirst(text[..n], LinesOf(text[n + 1..]));
      }
    }
  }
}
