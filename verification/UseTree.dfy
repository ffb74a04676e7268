/** The paths a `use` tree brings in (xtask/src/ownership.rs). */
module UseTree {
  import opened Basics
  import opened Spaces
  import Texts

  // ---- Pieces of text ----

  /** Where the last `c` is, or the end. */
  function FindLast(s: string, c: char): (n: nat)
    ensures n <= |s| && (n < |s| ==> s[n] == c && forall k :: n < k < |s| ==> s[k] != c)
    ensures n == |s| ==> forall k :: 0 <= k < |s| ==> s[k] != c
  {
    if s == "" then 0
    else if s[|s| - 1] == c then |s| - 1
    else
      var n := FindLast(s[..|s| - 1], c);
      if n == |s| - 1 then |s| else n
  }

  /** `s` up to its first " as ". */
  function BeforeAs(s: string): string {
    if |s| < 4 then s
    else if s[..4] == " as " then ""
    else [s[0]] + BeforeAs(s[1..])
  }

  predicate EndsWith(s: string, end: string) {
    |end| <= |s| && s[|s| - |end|..] == end
  }

  /** `s` without any "::*" at its end. */
  function TrimStars(s: string): string
    decreases |s|
  {
    if EndsWith(s, "::*") then TrimStars(s[..|s| - 3]) else s
  }

  function TrimColons(s: string): string
    decreases |s|
  {
    if EndsWith(s, "::") then TrimColons(s[..|s| - 2]) else s
  }

  /** `n` times `part`. */
  ghost function Times(part: string, n: nat): string {
    if n == 0 then "" else Times(part, n - 1) + part
  }

  /** What is left does not end so, and what was taken off did, any number of times. */
  lemma {:induction false} TrimStarsMeans(s: string) returns (n: nat)
    ensures s == TrimStars(s) + Times("::*", n) && !(|TrimStars(s)| >= 3 && TrimStars(s)[|TrimStars(s)| - 3..] == "::*")
    decreases |s|
  {
    n := 0;
    if EndsWith(s, "::*") {
      var before := s[..|s| - 3];
      n := TrimStarsMeans(before);
      assert s == before + "::*";
      Associate(TrimStars(before), Times("::*", n), "::*");
      n := n + 1;
    } else {
      assert s == s + "";
    }
  }

  lemma {:induction false} TrimColonsMeans(s: string) returns (n: nat)
    ensures s == TrimColons(s) + Times("::", n) && !(|TrimColons(s)| >= 2 && TrimColons(s)[|TrimColons(s)| - 2..] == "::")
    decreases |s|
  {
    n := 0;
    if EndsWith(s, "::") {
      var before := s[..|s| - 2];
      n := TrimColonsMeans(before);
      assert s == before + "::";
      Associate(TrimColons(before), Times("::", n), "::");
      n := n + 1;
    } else {
      assert s == s + "";
    }
  }

  // ---- Splitting at the commas outside braces ----

  function DepthAfter(depth: int, c: char): int {
    if c == '{' then depth + 1 else if c == '}' then depth - 1 else depth
  }

  function Merged(first: string, pieces: seq<string>): (r: seq<string>)
    requires |pieces| > 0
    ensures |r| == |pieces|
  {
    [first + pieces[0]] + pieces[1..]
  }

  function TopPieces(s: string, depth: int): (pieces: seq<string>)
    ensures |pieces| > 0
  {
    if s == "" then [""]
    else if s[0] == ',' && depth == 0 then [""] + TopPieces(s[1..], 0)
    else Merged([s[0]], TopPieces(s[1..], DepthAfter(depth, s[0])))
  }

  lemma MergedTwice(a: string, b: string, pieces: seq<string>)
    requires |pieces| > 0
    ensures Merged(a, Merged(b, pieces)) == Merged(a + b, pieces)
  {
    assert a + (b + pieces[0]) == (a + b) + pieces[0];
  }

  lemma MergedNothing(pieces: seq<string>)
    requires |pieces| > 0
    ensures Merged("", pieces) == pieces
  {
    assert "" + pieces[0] == pieces[0];
  }

  lemma MergedBreak(parts: seq<string>, a: string, rest: seq<string>)
    requires |rest| > 0
    ensures parts + Merged(a, [""] + rest) == (parts + [a]) + Merged("", rest)
  {
    MergedNothing(rest);
    assert a + "" == a && ([""] + rest)[1..] == rest;
  }

  /** How one character changes the pieces still to come. */
  lemma PiecesStep(s: string, depth: int, first: string, parts: seq<string>)
    requires s != ""
    ensures parts + Merged(first, TopPieces(s, depth)) ==
            if s[0] == ',' && depth == 0 then (parts + [first]) + Merged("", TopPieces(s[1..], 0))
            else parts + Merged(first + [s[0]], TopPieces(s[1..], DepthAfter(depth, s[0])))
  {
    if s[0] == ',' && depth == 0 {
      MergedBreak(parts, first, TopPieces(s[1..], 0));
    } else {
      MergedTwice(first, [s[0]], TopPieces(s[1..], DepthAfter(depth, s[0])));
    }
  }

  /** How many more braces a text opens than it closes. */
  ghost function Nesting(s: string): int {
    multiset(s)['{'] as int - multiset(s)['}'] as int
  }

  /** Every comma of the text is in braces, of which `depth` are open before it. */
  ghost predicate CommasInBraces(s: string, depth: int) {
    forall k :: 0 <= k < |s| && s[k] == ',' ==> depth + Nesting(s[..k]) != 0
  }

  /** The pieces make up the text with commas between them, no comma outside braces
      is in a piece, and every comma between two is. */
  ghost predicate SplitAtTop(s: string, depth: int, pieces: seq<string>) {
    && |pieces| > 0 && Texts.Joined(pieces) == s
    && CommasInBraces(pieces[0], depth) && (|pieces| > 1 ==> depth + Nesting(pieces[0]) == 0)
    && (forall i :: 0 < i < |pieces| ==> CommasInBraces(pieces[i], 0))
    && (forall i :: 0 < i < |pieces| - 1 ==> Nesting(pieces[i]) == 0)
  }

  lemma NestingCons(c: char, s: string)
    ensures Nesting([c] + s) == DepthAfter(0, c) + Nesting(s)
  {
    assert multiset([c] + s) == multiset{c} + multiset(s);
  }

  lemma CommasCons(c: char, s: string, depth: int)
    requires CommasInBraces(s, DepthAfter(depth, c)) && !(c == ',' && depth == 0)
    ensures CommasInBraces([c] + s, depth)
  {
    var longer := [c] + s;
    forall k | 0 <= k < |longer| && longer[k] == ',' ensures depth + Nesting(longer[..k]) != 0 {
      if k > 0 {
        assert longer[..k] == [c] + s[..k - 1];
        NestingCons(c, s[..k - 1]);
      }
    }
  }

  lemma SplitBreak(s: string, pieces: seq<string>)
    requires s != "" && s[0] == ',' && SplitAtTop(s[1..], 0, pieces)
    ensures SplitAtTop(s, 0, [""] + pieces)
  {
    var all := [""] + pieces;
    assert all[1..] == pieces && s == "," + s[1..];
    assert forall i :: 0 < i < |all| ==> all[i] == pieces[i - 1];
    assert |pieces| > 1 ==> Nesting(pieces[0]) == 0;
  }

  lemma JoinedMerged(first: string, pieces: seq<string>)
    requires |pieces| > 0
    ensures Texts.Joined(Merged(first, pieces)) == first + Texts.Joined(pieces)
  {
    var all := Merged(first, pieces);
    if |pieces| > 1 {
      assert all[1..] == pieces[1..];
      Regrouped(first, pieces[0], Texts.Joined(pieces[1..]));
    }
  }

  lemma Regrouped(a: string, b: string, c: string)
    ensures (a + b) + "," + c == a + (b + "," + c)
  {
  }

  lemma SplitOn(s: string, depth: int, pieces: seq<string>)
    requires s != "" && !(s[0] == ',' && depth == 0) && SplitAtTop(s[1..], DepthAfter(depth, s[0]), pieces)
    ensures SplitAtTop(s, depth, Merged([s[0]], pieces))
  {
    var all := Merged([s[0]], pieces);
    JoinedMerged([s[0]], pieces);
    assert s == [s[0]] + s[1..];
    assert forall i :: 0 < i < |all| ==> all[i] == pieces[i];
    NestingCons(s[0], pieces[0]);
    CommasCons(s[0], pieces[0], depth);
  }

  lemma {:induction false} TopPiecesMean(s: string, depth: int)
    ensures SplitAtTop(s, depth, TopPieces(s, depth))
  {
    if s != "" {
      if s[0] == ',' && depth == 0 {
        TopPiecesMean(s[1..], 0);
        SplitBreak(s, TopPieces(s[1..], 0));
      } else {
        TopPiecesMean(s[1..], DepthAfter(depth, s[0]));
        SplitOn(s, depth, TopPieces(s[1..], DepthAfter(depth, s[0])));
      }
    }
  }

  /** The parts found, the piece under way, and the pieces still to come. */
  ghost predicate Splitting(inner: string, parts: seq<string>, from: nat, at: nat, depth: int) {
    && from <= at <= |inner|
    && TopPieces(inner, 0) == parts + Merged(inner[from..at], TopPieces(inner[at..], depth))
  }

  lemma SplitStep(inner: string, parts: seq<string>, from: nat, at: nat, depth: int)
    requires at < |inner| && Splitting(inner, parts, from, at, depth)
    ensures if inner[at] == ',' && depth == 0 then Splitting(inner, parts + [inner[from..at]], at + 1, at + 1, 0)
            else Splitting(inner, parts, from, at + 1, DepthAfter(depth, inner[at]))
  {
    OneFurther(inner, from, at);
    PiecesStep(inner[at..], depth, inner[from..at], parts);
  }

  lemma OneFurther(s: string, from: nat, at: nat)
    requires from <= at < |s|
    ensures s[at..][0] == s[at] && s[at..][1..] == s[at + 1..]
    ensures s[at + 1..at + 1] == "" && s[from..at + 1] == s[from..at] + [s[at]]
  {
  }

  /** Splits `inner` at the commas at depth zero. */
  method SplitTop(inner: string) returns (parts: seq<string>)
    ensures parts == TopPieces(inner, 0) && SplitAtTop(inner, 0, parts)
  {
    parts := [];
    var depth, from := 0, 0;
    MergedNothing(TopPieces(inner, 0));
    assert inner[0..0] == "" && inner[0..] == inner;
    for at := 0 to |inner|
      invariant Splitting(inner, parts, from, at, depth)
    {
      SplitStep(inner, parts, from, at, depth);
      if inner[at] == ',' && depth == 0 {
        parts := parts + [inner[from..at]];
        from := at + 1;
      } else {
        depth := DepthAfter(depth, inner[at]);
      }
    }
    assert inner[|inner|..] == "" && inner[from..|inner|] == inner[from..];
    assert inner[from..] + "" == inner[from..];
    parts := parts + [inner[from..]];
    TopPiecesMean(inner, 0);
  }

  // ---- Expanding ----

  lemma {:induction false} PiecesShort(s: string, depth: int, k: nat)
    requires k < |TopPieces(s, depth)|
    ensures |TopPieces(s, depth)[k]| <= |s|
  {
    if s != "" {
      if s[0] == ',' && depth == 0 {
        if k > 0 { PiecesShort(s[1..], 0, k - 1); }
      } else {
        PiecesShort(s[1..], DepthAfter(depth, s[0]), k);
      }
    }
  }

  /** A path of a group's item, under the group's prefix. */
  function Under(prefix: string, path: string): string {
    if path == "self" then prefix else prefix + "::" + path
  }

  function AllUnder(prefix: string, paths: seq<string>): (r: seq<string>)
    ensures |r| == |paths|
  {
    seq(|paths|, k requires 0 <= k < |paths| => Under(prefix, paths[k]))
  }

  /** The paths of a tree's text; none where slicing it would panic, its last
      closing brace being before its first opening one. */
  function Expand(tree: string): Option<seq<string>>
    decreases |tree|
  {
    var text := Trim(tree);
    var start := Find(text, '{');
    if start == |text| then Some([TrimStars(Trim(BeforeAs(text)))])
    else
      var end := FindLast(text, '}');
      if end <= start then None
      else
        var inner := text[start + 1..end];
        var parts := TopPieces(inner, 0);
        assert forall k :: 0 <= k < |parts| ==> |parts[k]| < |tree| by {
          forall k | 0 <= k < |parts| ensures |parts[k]| < |tree| { PiecesShort(inner, 0, k); }
        }
        ExpandParts(TrimColons(Trim(text[..start])), parts, |tree|)
  }

  function ExpandParts(prefix: string, parts: seq<string>, bound: nat): Option<seq<string>>
    requires forall k :: 0 <= k < |parts| ==> |parts[k]| < bound
    decreases bound, |parts|
  {
    if parts == [] then Some([])
    else
      var n := |parts| - 1;
      match ExpandParts(prefix, parts[..n], bound)
      case None => None
      case Some(before) =>
        if Trim(parts[n]) == "" then Some(before)
        else
          match Expand(parts[n])
          case None => None
          case Some(paths) => Some(before + AllUnder(prefix, paths))
  }

  /** What the text of a tree brings in: the code's recursion. */
  method ExpandTree(tree: string) returns (paths: Option<seq<string>>)
    ensures paths == Expand(tree)
    decreases |tree|, 1
  {
    var text := Trim(tree);
    var start := Find(text, '{');
    if start == |text| { return Some([TrimStars(Trim(BeforeAs(text)))]); }
    var end := FindLast(text, '}');
    if end <= start { return None; }
    var prefix := TrimColons(Trim(text[..start]));
    var inner := text[start + 1..end];
    var parts := SplitTop(inner);
    forall k | 0 <= k < |parts| ensures |parts[k]| < |tree| { PiecesShort(inner, 0, k); }
    paths := ExpandEach(prefix, parts, |tree|);
  }

  /** The paths of a group's items, under its prefix. */
  method ExpandEach(prefix: string, parts: seq<string>, ghost bound: nat) returns (paths: Option<seq<string>>)
    requires forall k :: 0 <= k < |parts| ==> |parts[k]| < bound
    ensures paths == ExpandParts(prefix, parts, bound)
    decreases bound, 0
  {
    var found: seq<string> := [];
    for k := 0 to |parts|
      invariant ExpandParts(prefix, parts[..k], bound) == Some(found)
    {
      PartsStep(prefix, parts, bound, k);
      if Trim(parts[k]) != "" {
        var more := ExpandTree(parts[k]);
        if more.None? {
          PartsFail(prefix, parts, bound, k + 1);
          return None;
        }
        found := found + AllUnder(prefix, more.value);
      }
    }
    assert parts[..|parts|] == parts;
    paths := Some(found);
  }

  /** One part more, when those before it expand. */
  lemma PartsStep(prefix: string, parts: seq<string>, bound: nat, k: nat)
    requires k < |parts| && forall i :: 0 <= i < |parts| ==> |parts[i]| < bound
    requires ExpandParts(prefix, parts[..k], bound).Some?
    ensures var before := ExpandParts(prefix, parts[..k], bound).value;
            ExpandParts(prefix, parts[..k + 1], bound) ==
            if Trim(parts[k]) == "" then Some(before)
            else if Expand(parts[k]).None? then None
            else Some(before + AllUnder(prefix, Expand(parts[k]).value))
  {
    assert parts[..k + 1][..k] == parts[..k];
  }

  lemma {:induction false} PartsFail(prefix: string, parts: seq<string>, bound: nat, k: nat)
    requires k <= |parts| && forall i :: 0 <= i < |parts| ==> |parts[i]| < bound
    requires ExpandParts(prefix, parts[..k], bound).None?
    ensures ExpandParts(prefix, parts, bound).None?
  {
    if k == |parts| {
      assert parts[..k] == parts;
    } else {
      var before := parts[..|parts| - 1];
      assert before[..k] == parts[..k];
      PartsFail(prefix, before, bound, k);
    }
  }
}
