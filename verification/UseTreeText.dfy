/** Every rendering of a `use` tree expands to the tree's paths
    (xtask/src/ownership.rs). */
module UseTreeText {
  import opened Basics
  import opened Spaces
  import opened UseTree

  /** A rename: the white space on either side of `as`, and the new name. */
  datatype Alias = Alias(before: string, after: string, name: string)

  /** A group's prefix: a path, empty for the crate root, and the white space on
      either side of its `::`. */
  datatype Prefix = Prefix(path: string, before: string, after: string)

  /** A tree as written: every path with the white space around it, a rename if
      it has one, and a group with its prefix if it has one, its items and perhaps
      a comma, with the white space after it, after the last; with no items just
      that white space. */
  datatype Tree =
    | Leaf(lead: string, path: string, alias: Option<Alias>, trail: string)
    | Group(lead: string, prefix: Option<Prefix>, items: seq<Tree>, comma: Option<string>, trail: string)

  // ---- Rendering ----

  function Render(t: Tree): string {
    match t
    case Leaf(lead, path, alias, trail) => lead + LeafBody(path, alias) + trail
    case Group(lead, prefix, items, comma, trail) => lead + GroupBody(prefix, RenderItems(items), comma) + trail
  }

  function LeafBody(path: string, alias: Option<Alias>): string {
    if alias.None? then path else path + Rename(alias.value)
  }

  function Rename(alias: Alias): string {
    alias.before + ("as" + (alias.after + alias.name))
  }

  function Head(prefix: Option<Prefix>): string {
    if prefix.None? then "" else prefix.value.path + prefix.value.before + "::" + prefix.value.after
  }

  function GroupBody(prefix: Option<Prefix>, inner: string, comma: Option<string>): string {
    Head(prefix) + "{" + Inner(inner, comma) + "}"
  }

  function Inner(inner: string, comma: Option<string>): string {
    if comma.None? then inner else if inner == "" then comma.value else inner + "," + comma.value
  }

  /** The items with commas between them. */
  function RenderItems(items: seq<Tree>): string {
    if items == [] then ""
    else if |items| == 1 then Render(items[0])
    else Render(items[0]) + "," + RenderItems(items[1..])
  }

  // ---- Well-formed trees ----

  predicate PlainText(s: string) {
    forall k :: 0 <= k < |s| ==> s[k] != '{' && s[k] != '}' && s[k] != ','
  }

  /** " as " starts at `k`. */
  predicate AsAt(s: string, k: nat) {
    k + 4 <= |s| && s[k] == ' ' && s[k + 1] == 'a' && s[k + 2] == 's' && s[k + 3] == ' '
  }

  /** A path as written, perhaps with white space around its `::`, but without the
      keyword `as` among its names. */
  predicate PathText(s: string) {
    s != "" && Trimmed(s) && PlainText(s) && forall k :: 0 <= k < |s| ==> !AsAt(s + " ", k)
  }

  predicate WellAlias(alias: Option<Alias>) {
    alias.Some? ==>
      && alias.value.before != "" && Blank(alias.value.before) && alias.value.after != "" && Blank(alias.value.after)
      && alias.value.name != "" && NoSpace(alias.value.name) && PlainText(alias.value.name) && ':' !in alias.value.name
  }

  predicate WellPrefix(prefix: Option<Prefix>) {
    prefix.Some? ==>
      && Blank(prefix.value.before) && Blank(prefix.value.after)
      && if prefix.value.path == "" then prefix.value.before == ""
         else Trimmed(prefix.value.path) && PlainText(prefix.value.path) && !EndsWith(prefix.value.path, ":")
  }

  predicate WellFormed(t: Tree) {
    match t
    case Leaf(lead, path, alias, trail) => Blank(lead) && Blank(trail) && PathText(path) && WellAlias(alias)
    case Group(lead, prefix, items, comma, trail) =>
      && Blank(lead) && Blank(trail) && (comma.Some? ==> Blank(comma.value))
      && WellPrefix(prefix)
      && forall k :: 0 <= k < |items| ==> WellFormed(items[k])
  }

  /** The rename is written as the code looks for it. */
  predicate Spaced(alias: Option<Alias>)
    requires WellAlias(alias)
  {
    alias.Some? ==> alias.value.before[|alias.value.before| - 1] == ' ' && alias.value.after[0] == ' '
  }

  function LeafMade(path: string, alias: Option<Alias>): string
    requires WellAlias(alias)
  {
    TrimStars(if Spaced(alias) then path else LeafBody(path, alias))
  }

  function PrefixMade(prefix: Option<Prefix>): string {
    if prefix.None? then "" else prefix.value.path + prefix.value.before
  }

  /** What the code makes of a tree: each leaf's path without "::*", under the
      prefixes of the groups around it, a rename left on that it does not see. */
  function Expanded(t: Tree): seq<string>
    requires WellFormed(t)
  {
    match t
    case Leaf(_, path, alias, _) => [LeafMade(path, alias)]
    case Group(_, prefix, items, _, _) => AllUnder(PrefixMade(prefix), ExpandedItems(items))
  }

  function ExpandedItems(items: seq<Tree>): seq<string>
    requires forall k :: 0 <= k < |items| ==> WellFormed(items[k])
  {
    if items == [] then [] else ExpandedItems(items[..|items| - 1]) + Expanded(items[|items| - 1])
  }

  // ---- Leaves ----

  lemma {:induction false} BeforeAsNone(s: string)
    requires forall k :: 0 <= k < |s| ==> !AsAt(s, k)
    ensures BeforeAs(s) == s
  {
    if |s| >= 4 {
      assert s[..4] == " as " ==> AsAt(s, 0);
      var rest := s[1..];
      forall k | 0 <= k < |rest| ensures !AsAt(rest, k) { assert AsAt(rest, k) ==> AsAt(s, k + 1); }
      BeforeAsNone(rest);
    }
  }

  lemma {:induction false} BeforeAsFirst(s: string, n: nat)
    requires AsAt(s, n) && forall k :: 0 <= k < n ==> !AsAt(s, k)
    ensures BeforeAs(s) == s[..n]
    decreases n
  {
    if n == 0 {
      assert s[..4] == " as ";
    } else {
      assert s[..4] == " as " ==> AsAt(s, 0);
      var rest := s[1..];
      assert AsAt(rest, n - 1);
      forall k | 0 <= k < n - 1 ensures !AsAt(rest, k) { assert AsAt(rest, k) ==> AsAt(s, k + 1); }
      BeforeAsFirst(rest, n - 1);
      assert s[..n] == [s[0]] + rest[..n - 1];
    }
  }

  /** No " as " starts in a path that white space, or nothing, follows. */
  lemma NoAsInPath(path: string, rest: string, k: nat)
    requires PathText(path) && (rest == "" || IsSpace(rest[0])) && k < |path|
    ensures !AsAt(path + rest, k)
  {
    var s := path + rest;
    assert !IsSpace('a') && !IsSpace('s');
    assert rest != "" ==> s[|path|] == rest[0];
    assert path[|path| - 1] == s[|path| - 1];
    assert k + 3 <= |path| && AsAt(s, k) ==> AsAt(path + " ", k);
  }

  lemma RenamePlaces(alias: Alias, k: nat)
    requires k < |Rename(alias)|
    ensures var a, b := |alias.before|, |alias.before| + 2 + |alias.after|;
            Rename(alias)[k] == if k < a then alias.before[k] else if k == a then 'a' else if k == a + 1 then 's'
                                else if k < b then alias.after[k - a - 2] else alias.name[k - b]
  {
  }

  /** In a rename " as " can only start right before the `as`. */
  lemma OnlyAsInRename(alias: Alias, k: nat)
    requires WellAlias(Some(alias)) && AsAt(Rename(alias), k)
    ensures k == |alias.before| - 1 && Spaced(Some(alias))
  {
    RenamePlaces(alias, k);
    RenamePlaces(alias, k + 1);
    RenamePlaces(alias, k + 3);
    assert !IsSpace('a') && IsSpace(' ');
  }

  lemma OnlyAs(path: string, alias: Alias, k: nat)
    requires PathText(path) && WellAlias(Some(alias))
    requires AsAt(LeafBody(path, Some(alias)), k)
    ensures k == |path| + |alias.before| - 1 && Spaced(Some(alias))
  {
    assert Rename(alias)[0] == alias.before[0];
    if k < |path| {
      NoAsInPath(path, Rename(alias), k);
    } else {
      assert AsAt(Rename(alias), k - |path|);
      OnlyAsInRename(alias, k - |path|);
    }
  }

  lemma SpacedBeforeAs(path: string, alias: Alias)
    requires PathText(path) && WellAlias(Some(alias)) && Spaced(Some(alias))
    ensures BeforeAs(LeafBody(path, Some(alias))) == path + alias.before[..|alias.before| - 1]
  {
    var s := LeafBody(path, Some(alias));
    var m := |alias.before| - 1;
    var n := |path| + m;
    RenamePlaces(alias, m);
    RenamePlaces(alias, m + 1);
    RenamePlaces(alias, m + 2);
    RenamePlaces(alias, m + 3);
    assert AsAt(s, n);
    forall k | 0 <= k < n ensures !AsAt(s, k) { if AsAt(s, k) { OnlyAs(path, alias, k); } }
    BeforeAsFirst(s, n);
    assert s[..n] == path + alias.before[..|alias.before| - 1];
  }

  /** What is left of a leaf without its rename. */
  lemma LeafPath(path: string, alias: Option<Alias>)
    requires PathText(path) && WellAlias(alias)
    ensures Trim(BeforeAs(LeafBody(path, alias))) == if Spaced(alias) then path else LeafBody(path, alias)
  {
    var s := LeafBody(path, alias);
    if alias.Some? && Spaced(alias) {
      var pad := alias.value.before[..|alias.value.before| - 1];
      SpacedBeforeAs(path, alias.value);
      TrimPadded("", path, pad);
      assert "" + path + pad == path + pad;
    } else {
      forall k | 0 <= k < |s| ensures !AsAt(s, k) {
        if alias.None? {
          NoAsInPath(path, "", k);
          assert path + "" == path;
        } else if AsAt(s, k) {
          OnlyAs(path, alias.value, k);
        }
      }
      BeforeAsNone(s);
      LeafTrimmed(path, alias);
      TrimPadded("", s, "");
      assert "" + s + "" == s;
    }
  }

  lemma LeafTrimmed(path: string, alias: Option<Alias>)
    requires PathText(path) && WellAlias(alias)
    ensures Trimmed(LeafBody(path, alias)) && PlainText(LeafBody(path, alias)) && LeafBody(path, alias) != ""
  {
    var s := LeafBody(path, alias);
    assert s[0] == path[0];
    if alias.Some? {
      BlankPlain(alias.value.before);
      BlankPlain(alias.value.after);
      assert s[|s| - 1] == alias.value.name[|alias.value.name| - 1];
    }
  }

  lemma LeafExpands(lead: string, path: string, alias: Option<Alias>, trail: string)
    requires Blank(lead) && Blank(trail) && PathText(path) && WellAlias(alias)
    ensures Expand(lead + LeafBody(path, alias) + trail) == Some([LeafMade(path, alias)])
  {
    var s := LeafBody(path, alias);
    LeafTrimmed(path, alias);
    TrimPadded(lead, s, trail);
    LeafPath(path, alias);
    assert Find(s, '{') == |s|;
  }

  // ---- Groups ----

  /** The depth after `s`. */
  function Depth(s: string, depth: int): int {
    if s == "" then depth else Depth(s[1..], DepthAfter(depth, s[0]))
  }

  /** No comma of `s` is at depth zero. */
  predicate Whole(s: string, depth: int) {
    s == "" || (!(s[0] == ',' && depth == 0) && Whole(s[1..], DepthAfter(depth, s[0])))
  }

  lemma {:induction false} DepthSum(a: string, b: string, depth: int)
    ensures Depth(a + b, depth) == Depth(b, Depth(a, depth))
    ensures Whole(a + b, depth) <==> Whole(a, depth) && Whole(b, Depth(a, depth))
  {
    if a == "" {
      assert a + b == b;
    } else {
      assert (a + b)[1..] == a[1..] + b;
      DepthSum(a[1..], b, DepthAfter(depth, a[0]));
    }
  }

  lemma {:induction false} PlainDepth(s: string, depth: int)
    requires PlainText(s)
    ensures Depth(s, depth) == depth && Whole(s, depth)
  {
    if s != "" { PlainDepth(s[1..], depth); }
  }

  lemma {:induction false} PiecesOfWhole(a: string, b: string, depth: int)
    requires Whole(a, depth)
    ensures TopPieces(a + b, depth) == Merged(a, TopPieces(b, Depth(a, depth)))
  {
    if a == "" {
      assert a + b == b;
      MergedNothing(TopPieces(b, depth));
    } else {
      assert (a + b)[1..] == a[1..] + b;
      PiecesOfWhole(a[1..], b, DepthAfter(depth, a[0]));
      MergedTwice([a[0]], a[1..], TopPieces(b, Depth(a, depth)));
      assert [a[0]] + a[1..] == a;
    }
  }

  /** A rendering is in one piece: its braces match, its commas are in them. */
  ghost predicate OnePiece(s: string) {
    forall depth :: depth >= 0 ==> Depth(s, depth) == depth && Whole(s, depth)
  }

  lemma OnePieceSum(a: string, b: string)
    requires OnePiece(a) && OnePiece(b)
    ensures OnePiece(a + b)
  {
    forall depth | depth >= 0 ensures Depth(a + b, depth) == depth && Whole(a + b, depth) {
      DepthSum(a, b, depth);
    }
  }

  lemma PlainOnePiece(s: string)
    requires PlainText(s)
    ensures OnePiece(s)
  {
    forall depth | depth >= 0 ensures Depth(s, depth) == depth && Whole(s, depth) {
      PlainDepth(s, depth);
    }
  }

  lemma BlankPlain(s: string)
    requires Blank(s)
    ensures PlainText(s)
  {
    forall k | 0 <= k < |s| ensures s[k] != '{' && s[k] != '}' && s[k] != ',' {
      assert IsSpace(s[k]);
    }
  }

  /** Anything in one piece inside braces stays so, even with commas. */
  ghost predicate InnerPiece(s: string) {
    forall depth :: depth >= 1 ==> Depth(s, depth) == depth && Whole(s, depth)
  }

  lemma InnerSum(a: string, b: string)
    requires InnerPiece(a) && InnerPiece(b)
    ensures InnerPiece(a + "," + b)
  {
    forall depth | depth >= 1 ensures Depth(a + "," + b, depth) == depth && Whole(a + "," + b, depth) {
      DepthSum(a, ",", depth);
      DepthSum(a + ",", b, depth);
      assert ","[1..] == "" && Depth(",", depth) == depth && Whole(",", depth);
    }
  }

  lemma Braced(inner: string)
    requires InnerPiece(inner)
    ensures OnePiece("{" + inner + "}")
  {
    forall depth | depth >= 0 ensures Depth("{" + inner + "}", depth) == depth && Whole("{" + inner + "}", depth) {
      DepthSum("{", inner, depth);
      DepthSum("{" + inner, "}", depth);
      assert "{"[1..] == "" && Depth("{", depth) == depth + 1 && Whole("{", depth);
      assert "}"[1..] == "" && Depth("}", depth + 1) == depth && Whole("}", depth + 1);
    }
  }

  lemma InnerText(inner: string, comma: Option<string>)
    requires InnerPiece(inner) && (comma.Some? ==> Blank(comma.value))
    ensures InnerPiece(Inner(inner, comma))
  {
    if comma.Some? {
      BlankPlain(comma.value);
      PlainOnePiece(comma.value);
      InnerSum(inner, comma.value);
      assert InnerPiece(comma.value);
    }
  }

  lemma HeadPlain(prefix: Option<Prefix>)
    requires WellPrefix(prefix)
    ensures PlainText(Head(prefix))
  {
    if prefix.Some? {
      BlankPlain(prefix.value.before);
      BlankPlain(prefix.value.after);
    }
  }

  lemma GroupOnePiece(prefix: Option<Prefix>, inner: string, comma: Option<string>)
    requires WellPrefix(prefix) && InnerPiece(inner) && (comma.Some? ==> Blank(comma.value))
    ensures OnePiece(GroupBody(prefix, inner, comma))
  {
    var head, body := Head(prefix), "{" + Inner(inner, comma) + "}";
    HeadPlain(prefix);
    PlainOnePiece(head);
    InnerText(inner, comma);
    Braced(Inner(inner, comma));
    OnePieceSum(head, body);
    assert GroupBody(prefix, inner, comma) == head + body;
  }

  lemma PaddedOnePiece(lead: string, s: string, trail: string)
    requires Blank(lead) && OnePiece(s) && Blank(trail)
    ensures OnePiece(lead + s + trail)
  {
    BlankPlain(lead);
    BlankPlain(trail);
    PlainOnePiece(lead);
    PlainOnePiece(trail);
    OnePieceSum(lead, s);
    OnePieceSum(lead + s, trail);
  }

  lemma {:induction false} RenderOnePiece(t: Tree)
    requires WellFormed(t)
    ensures OnePiece(Render(t))
    decreases t, 0
  {
    match t
    case Leaf(lead, path, alias, trail) =>
      LeafTrimmed(path, alias);
      PlainOnePiece(LeafBody(path, alias));
      PaddedOnePiece(lead, LeafBody(path, alias), trail);
    case Group(lead, prefix, items, comma, trail) =>
      ItemsInnerPiece(items);
      GroupOnePiece(prefix, RenderItems(items), comma);
      PaddedOnePiece(lead, GroupBody(prefix, RenderItems(items), comma), trail);
  }

  lemma {:induction false} ItemsInnerPiece(items: seq<Tree>)
    requires forall k :: 0 <= k < |items| ==> WellFormed(items[k])
    ensures InnerPiece(RenderItems(items))
    decreases items, |items|
  {
    if items == [] {
      PlainOnePiece("");
    } else {
      RenderOnePiece(items[0]);
      if |items| > 1 {
        ItemsInnerPiece(items[1..]);
        InnerSum(Render(items[0]), RenderItems(items[1..]));
      }
    }
  }

  // ---- The pieces of a group ----

  function Rendered(items: seq<Tree>): (texts: seq<string>)
    ensures |texts| == |items|
  {
    seq(|items|, k requires 0 <= k < |items| => Render(items[k]))
  }

  function LastPiece(comma: Option<string>): seq<string> {
    if comma.None? then [] else [comma.value]
  }

  lemma PieceAlone(s: string)
    requires OnePiece(s)
    ensures TopPieces(s, 0) == [s]
  {
    PiecesOfWhole(s, "", 0);
    assert s + "" == s;
  }

  lemma PieceThen(s: string, rest: string)
    requires OnePiece(s)
    ensures TopPieces(s + "," + rest, 0) == [s] + TopPieces(rest, 0)
  {
    var tail := "," + rest;
    PiecesOfWhole(s, tail, 0);
    assert s + tail == s + "," + rest && tail[1..] == rest;
    assert s + "" == s && ([""] + TopPieces(rest, 0))[1..] == TopPieces(rest, 0);
  }

  lemma OneItemPieces(first: string, comma: Option<string>)
    requires OnePiece(first) && first != "" && (comma.Some? ==> Blank(comma.value))
    ensures TopPieces(Inner(first, comma), 0) == [first] + LastPiece(comma)
  {
    if comma.None? {
      PieceAlone(first);
    } else {
      PieceThen(first, comma.value);
      BlankPlain(comma.value);
      PlainOnePiece(comma.value);
      PieceAlone(comma.value);
    }
  }

  lemma MoreItemPieces(first: string, rest: string, comma: Option<string>)
    requires OnePiece(first) && rest != ""
    ensures TopPieces(Inner(first + "," + rest, comma), 0) == [first] + TopPieces(Inner(rest, comma), 0)
  {
    PieceThen(first, Inner(rest, comma));
    assert Inner(first + "," + rest, comma) == first + "," + Inner(rest, comma);
  }

  lemma RenderedCons(items: seq<Tree>, more: seq<string>)
    requires items != []
    ensures Rendered(items) + more == [Render(items[0])] + (Rendered(items[1..]) + more)
  {
    assert Rendered(items) == [Render(items[0])] + Rendered(items[1..]);
  }

  lemma {:induction false} ItemPieces(items: seq<Tree>, comma: Option<string>)
    requires items != [] && forall k :: 0 <= k < |items| ==> WellFormed(items[k])
    requires comma.Some? ==> Blank(comma.value)
    ensures RenderItems(items) != "" && TopPieces(Inner(RenderItems(items), comma), 0) == Rendered(items) + LastPiece(comma)
  {
    RenderOnePiece(items[0]);
    RenderNotEmpty(items[0]);
    RenderedCons(items, LastPiece(comma));
    if |items| > 1 {
      ItemPieces(items[1..], comma);
      MoreItemPieces(Render(items[0]), RenderItems(items[1..]), comma);
    } else {
      OneItemPieces(Render(items[0]), comma);
      assert Rendered(items[1..]) + LastPiece(comma) == LastPiece(comma);
    }
  }

  lemma AllUnderSum(prefix: string, a: seq<string>, b: seq<string>)
    ensures AllUnder(prefix, a + b) == AllUnder(prefix, a) + AllUnder(prefix, b)
  {
  }

  lemma RenderNotBlank(t: Tree)
    requires WellFormed(t)
    ensures Trim(Render(t)) != ""
  {
    match t
    case Leaf(lead, path, alias, trail) =>
      LeafTrimmed(path, alias);
      TrimPadded(lead, LeafBody(path, alias), trail);
    case Group(lead, prefix, items, comma, trail) =>
      GroupTrimmed(prefix, RenderItems(items), comma);
      TrimPadded(lead, GroupBody(prefix, RenderItems(items), comma), trail);
  }

  lemma RenderNotEmpty(t: Tree)
    requires WellFormed(t)
    ensures Render(t) != ""
  {
    RenderNotBlank(t);
    BlankTrims("");
  }

  lemma GroupTrimmed(prefix: Option<Prefix>, inner: string, comma: Option<string>)
    requires WellPrefix(prefix)
    ensures Trimmed(GroupBody(prefix, inner, comma)) && GroupBody(prefix, inner, comma) != ""
  {
    var s := GroupBody(prefix, inner, comma);
    assert s[|s| - 1] == '}' && !IsSpace('}') && !IsSpace('{') && !IsSpace(':');
    if prefix.Some? && prefix.value.path != "" {
      assert s[0] == prefix.value.path[0];
    } else {
      assert s[0] == '{' || s[0] == ':';
    }
  }

  /** The last piece adds nothing. */
  lemma LastPieceAdds(prefix: string, parts: seq<string>, comma: Option<string>, bound: nat)
    requires comma.Some? ==> Blank(comma.value)
    requires forall k :: 0 <= k < |parts + LastPiece(comma)| ==> |(parts + LastPiece(comma))[k]| < bound
    requires forall k :: 0 <= k < |parts| ==> |parts[k]| < bound
    ensures ExpandParts(prefix, parts + LastPiece(comma), bound) == ExpandParts(prefix, parts, bound)
  {
    var all := parts + LastPiece(comma);
    if comma.None? {
      assert all == parts;
    } else {
      BlankTrims(comma.value);
      assert all[..|all| - 1] == parts && all[|all| - 1] == comma.value;
    }
  }

  // ---- Where the braces are ----

  lemma BracePlaces(head: string, inner: string)
    requires PlainText(head)
    ensures var s := head + "{" + inner + "}"; Find(s, '{') == |head| && FindLast(s, '}') == |s| - 1
  {
    var s := head + "{" + inner + "}";
    assert s[|head|] == '{' && s[|s| - 1] == '}';
    assert forall k :: 0 <= k < |head| ==> s[k] == head[k];
  }

  lemma PrefixText(prefix: Option<Prefix>)
    requires WellPrefix(prefix)
    ensures TrimColons(Trim(Head(prefix))) == PrefixMade(prefix)
  {
    if prefix.None? {
      TrimPadded("", "", "");
    } else {
      var made := PrefixMade(prefix);
      var s := made + "::";
      assert !IsSpace(':') && s[|s| - 1] == ':';
      assert made != "" ==> s[0] == prefix.value.path[0];
      assert made == "" ==> s == "::";
      TrimPadded("", s, prefix.value.after);
      assert "" + s + prefix.value.after == Head(prefix);
      assert s[|s| - 2..] == "::" && s[..|s| - 2] == made;
      NoColonsLeft(prefix.value.path, prefix.value.before);
    }
  }

  lemma ColonsEnd(s: string)
    ensures EndsWith(s, "::") ==> |s| > 0 && s[|s| - 1] == ':'
    ensures |s| > 0 && s[|s| - 1] == ':' ==> EndsWith(s, ":")
  {
    if EndsWith(s, "::") { assert s[|s| - 1] == s[|s| - 2..][1]; }
    if |s| > 0 && s[|s| - 1] == ':' { assert s[|s| - 1..] == ":"; }
  }

  lemma NoColonsLeft(path: string, before: string)
    requires Blank(before) && !EndsWith(path, ":")
    ensures TrimColons(path + before) == path + before
  {
    var s := path + before;
    assert before != "" ==> IsSpace(before[|before| - 1]) && s[|s| - 1] == before[|before| - 1];
    assert before == "" ==> s == path;
    ColonsEnd(s);
    ColonsEnd(path);
  }

  /** What expanding a group's text comes to. */
  lemma GroupSteps(lead: string, prefix: Option<Prefix>, inner: string, trail: string, parts: seq<string>)
    requires Blank(lead) && Blank(trail) && WellPrefix(prefix) && parts == TopPieces(inner, 0)
    ensures var text := lead + (Head(prefix) + "{" + inner + "}") + trail;
            && (forall k :: 0 <= k < |parts| ==> |parts[k]| < |text|)
            && Expand(text) == ExpandParts(PrefixMade(prefix), parts, |text|)
  {
    HeadPlain(prefix);
    GroupTrimmed(prefix, inner, None);
    PrefixText(prefix);
    HeadSteps(lead, Head(prefix), inner, trail, parts);
  }

  lemma HeadSteps(lead: string, head: string, inner: string, trail: string, parts: seq<string>)
    requires Blank(lead) && Blank(trail) && PlainText(head) && Trimmed(head + "{" + inner + "}")
    requires parts == TopPieces(inner, 0)
    ensures var text := lead + (head + "{" + inner + "}") + trail;
            && (forall k :: 0 <= k < |parts| ==> |parts[k]| < |text|)
            && Expand(text) == ExpandParts(TrimColons(Trim(head)), parts, |text|)
  {
    var body := head + "{" + inner + "}";
    var text := lead + body + trail;
    TrimPadded(lead, body, trail);
    BracePlaces(head, inner);
    assert body[..|head|] == head && body[|head| + 1..|body| - 1] == inner;
    forall k | 0 <= k < |parts| ensures |parts[k]| < |text| { PiecesShort(inner, 0, k); }
  }

  // ---- The whole tree ----

  lemma {:induction false} ItemsExpand(prefix: string, items: seq<Tree>, n: nat, bound: nat)
    requires n <= |items| && forall k :: 0 <= k < |items| ==> WellFormed(items[k])
    requires forall k :: 0 <= k < |items| ==> |Render(items[k])| < bound
    ensures ExpandParts(prefix, Rendered(items)[..n], bound) == Some(AllUnder(prefix, ExpandedItems(items[..n])))
    decreases items, n
  {
    if n == 0 {
      assert AllUnder(prefix, []) == [];
    } else {
      ItemsExpand(prefix, items, n - 1, bound);
      RenderNotBlank(items[n - 1]);
      RenderExpands(items[n - 1]);
      OnePart(prefix, Rendered(items), n - 1, bound, ExpandedItems(items[..n - 1]), Expanded(items[n - 1]));
      ExpandedSnoc(items, n - 1);
    }
  }

  lemma ExpandedSnoc(items: seq<Tree>, n: nat)
    requires n < |items| && forall k :: 0 <= k < |items| ==> WellFormed(items[k])
    ensures ExpandedItems(items[..n + 1]) == ExpandedItems(items[..n]) + Expanded(items[n])
  {
    assert items[..n + 1][..n] == items[..n];
  }

  lemma OnePart(prefix: string, texts: seq<string>, n: nat, bound: nat, before: seq<string>, paths: seq<string>)
    requires n < |texts| && (forall k :: 0 <= k < |texts| ==> |texts[k]| < bound) && Trim(texts[n]) != ""
    requires ExpandParts(prefix, texts[..n], bound) == Some(AllUnder(prefix, before)) && Expand(texts[n]) == Some(paths)
    ensures ExpandParts(prefix, texts[..n + 1], bound) == Some(AllUnder(prefix, before + paths))
  {
    PartsStep(prefix, texts, bound, n);
    AllUnderSum(prefix, before, paths);
  }

  /** Every rendering of a tree expands to the paths of its leaves. */
  lemma {:induction false} RenderExpands(t: Tree)
    requires WellFormed(t)
    ensures Expand(Render(t)) == Some(Expanded(t))
    decreases t, 0
  {
    match t
    case Leaf(lead, path, alias, trail) =>
      LeafExpands(lead, path, alias, trail);
    case Group(lead, prefix, items, comma, trail) =>
      GroupExpands(lead, prefix, items, comma, trail);
  }

  lemma {:induction false} AllItemsExpand(prefix: string, items: seq<Tree>, bound: nat)
    requires forall k :: 0 <= k < |items| ==> WellFormed(items[k]) && |Render(items[k])| < bound
    ensures forall k :: 0 <= k < |items| ==> |Rendered(items)[k]| < bound
    ensures ExpandParts(prefix, Rendered(items), bound) == Some(AllUnder(prefix, ExpandedItems(items)))
    decreases items, |items| + 1
  {
    ItemsExpand(prefix, items, |items|, bound);
    assert Rendered(items)[..|items|] == Rendered(items) && items[..|items|] == items;
  }

  lemma ItemsShort(items: seq<Tree>, comma: Option<string>, parts: seq<string>, bound: nat)
    requires parts == Rendered(items) + LastPiece(comma) && forall k :: 0 <= k < |parts| ==> |parts[k]| < bound
    ensures forall k :: 0 <= k < |items| ==> |Render(items[k])| < bound
  {
    forall k | 0 <= k < |items| ensures |Render(items[k])| < bound {
      assert parts[k] == Rendered(items)[k];
    }
  }

  /** The pieces of a group's text are its items, and perhaps a blank one. */
  lemma {:induction false} PartsExpand(prefix: string, items: seq<Tree>, comma: Option<string>, parts: seq<string>, bound: nat)
    requires forall k :: 0 <= k < |items| ==> WellFormed(items[k])
    requires comma.Some? ==> Blank(comma.value)
    requires parts == TopPieces(Inner(RenderItems(items), comma), 0) && forall k :: 0 <= k < |parts| ==> |parts[k]| < bound
    ensures ExpandParts(prefix, parts, bound) == Some(AllUnder(prefix, ExpandedItems(items)))
    decreases items, |items| + 2
  {
    if items == [] {
      var blank := Inner("", comma);
      BlankPlain(blank);
      PlainOnePiece(blank);
      PieceAlone(blank);
      assert |parts[0]| < bound;
      NothingExpands(prefix, blank, bound);
    } else {
      assert parts == Rendered(items) + LastPiece(comma) by {
        ItemPieces(items, comma);
      }
      ItemsShort(items, comma, parts, bound);
      AllItemsExpand(prefix, items, bound);
      LastPieceAdds(prefix, Rendered(items), comma, bound);
    }
  }

  lemma NothingExpands(prefix: string, blank: string, bound: nat)
    requires Blank(blank) && |blank| < bound
    ensures ExpandParts(prefix, [blank], bound) == Some([]) && AllUnder(prefix, []) == []
  {
    BlankTrims(blank);
    assert [blank][..0] == [];
  }

  lemma {:induction false} GroupExpands(lead: string, prefix: Option<Prefix>, items: seq<Tree>,
                                        comma: Option<string>, trail: string)
    requires WellFormed(Group(lead, prefix, items, comma, trail))
    ensures Expand(Render(Group(lead, prefix, items, comma, trail))) ==
            Some(AllUnder(PrefixMade(prefix), ExpandedItems(items)))
    decreases items, |items| + 3
  {
    var inner := Inner(RenderItems(items), comma);
    var text := lead + (Head(prefix) + "{" + inner + "}") + trail;
    GroupSteps(lead, prefix, inner, trail, TopPieces(inner, 0));
    PartsExpand(PrefixMade(prefix), items, comma, TopPieces(inner, 0), |text|);
  }
}
