/** When the paths a `use` tree expands to are the paths it means
    (xtask/src/ownership.rs): each leaf's whole path, `self` standing for the
    path around it and a glob for what it is a glob of.  Whatever goes wrong makes
    a path longer, so lengths tell the two apart. */
module UseTreeMeaning {
  import opened Basics
  import opened Spaces
  import opened UseTree
  import opened UseTreeText

  // ---- What a tree means ----

  /** `s` without its white space. */
  function Squeezed(s: string): string {
    if s == "" then "" else Squeezed(s[..|s| - 1]) + if IsSpace(s[|s| - 1]) then "" else [s[|s| - 1]]
  }

  /** `path` within `around`, the path of the groups it is in, if they have one. */
  function Within(around: Option<string>, path: string): string {
    if around.None? then path else around.value + "::" + path
  }

  function Meant(around: Option<string>, path: string): string {
    if around.Some? && path == "self" then around.value else TrimStars(Within(around, Squeezed(path)))
  }

  function Around(around: Option<string>, prefix: Option<Prefix>): Option<string> {
    if prefix.None? then around else Some(Within(around, Squeezed(prefix.value.path)))
  }

  /** The paths of a tree's leaves, in order, from the outside in. */
  function Meaning(around: Option<string>, t: Tree): (paths: seq<string>)
    ensures |paths| == Leaves(t)
    decreases t
  {
    match t
    case Leaf(_, path, _, _) => [Meant(around, path)]
    case Group(_, prefix, items, _, _) => MeaningItems(Around(around, prefix), items)
  }

  function MeaningItems(around: Option<string>, items: seq<Tree>): (paths: seq<string>)
    ensures |paths| == LeavesOf(items)
    decreases items
  {
    if items == [] then [] else MeaningItems(around, items[..|items| - 1]) + Meaning(around, items[|items| - 1])
  }

  function Leaves(t: Tree): nat {
    match t
    case Leaf(_, _, _, _) => 1
    case Group(_, _, items, _, _) => LeavesOf(items)
  }

  function LeavesOf(items: seq<Tree>): nat {
    if items == [] then 0 else LeavesOf(items[..|items| - 1]) + Leaves(items[|items| - 1])
  }

  // ---- Trees as Rust has them ----

  predicate ItemPath(path: string) {
    path != "" && path[0] != ':' && (TrimStars(path) == "self" ==> path == "self")
  }

  /** Under a prefix no path starts at the root, and `self` only stands alone. */
  predicate Usual(t: Tree, named: bool) {
    match t
    case Leaf(_, path, _, _) => named ==> ItemPath(path)
    case Group(_, prefix, items, _, _) =>
      && (named && prefix.Some? ==> prefix.value.path != "self")
      && forall k :: 0 <= k < |items| ==> Usual(items[k], named || prefix.Some?)
  }

  ghost predicate AllUsual(items: seq<Tree>) {
    forall k :: 0 <= k < |items| ==> WellFormed(items[k]) && Usual(items[k], true)
  }

  // ---- Trees the code reads as meant ----

  predicate CleanLeaf(path: string, alias: Option<Alias>, named: bool)
    requires WellAlias(alias)
  {
    NoSpace(path) && Spaced(alias) && (named ==> TrimStars(path) != "*")
  }

  predicate CleanPrefix(prefix: Option<Prefix>) {
    prefix.Some? && NoSpace(prefix.value.path) && prefix.value.before == ""
  }

  /** Every group that has a leaf has a prefix and no glob of itself, no path has
      white space in it, and every rename has a space on either side of `as`. */
  predicate Clean(t: Tree, named: bool)
    requires WellFormed(t)
    decreases t
  {
    match t
    case Leaf(_, path, alias, _) => CleanLeaf(path, alias, named)
    case Group(_, prefix, items, _, _) =>
      LeavesOf(items) == 0 || (CleanPrefix(prefix) && AllClean(items))
  }

  predicate AllClean(items: seq<Tree>)
    requires forall k :: 0 <= k < |items| ==> WellFormed(items[k])
    decreases items
  {
    items == [] || (AllClean(items[..|items| - 1]) && Clean(items[|items| - 1], true))
  }

  lemma {:induction false} EachClean(items: seq<Tree>, k: nat)
    requires k < |items| && (forall i :: 0 <= i < |items| ==> WellFormed(items[i])) && AllClean(items)
    ensures Clean(items[k], true)
  {
    if k < |items| - 1 { EachClean(items[..|items| - 1], k); }
  }

  // ---- White space ----

  lemma {:induction false} SqueezedShort(s: string)
    ensures |Squeezed(s)| <= |s| && (NoSpace(s) ==> Squeezed(s) == s) && (!NoSpace(s) ==> |Squeezed(s)| < |s|)
  {
    if s != "" { SqueezedShort(s[..|s| - 1]); }
  }

  lemma SqueezedStar(s: string)
    ensures Squeezed(s + "::*") == Squeezed(s) + "::*"
  {
    var a, b := s + ":", s + "::";
    assert !IsSpace(':') && !IsSpace('*');
    assert (s + "::*")[..|s| + 2] == b && b[..|s| + 1] == a && a[..|s|] == s;
    assert Squeezed(a) == Squeezed(s) + ":" && Squeezed(b) == Squeezed(a) + ":";
  }

  // ---- Globs ----

  lemma {:induction false} TrimStarsShort(s: string)
    ensures |TrimStars(s)| <= |s| && (TrimStars(s) != "" ==> TrimStars(s)[0] == s[0])
    decreases |s|
  {
    if EndsWith(s, "::*") { TrimStarsShort(s[..|s| - 3]); }
  }

  lemma StarSplit(s: string)
    requires EndsWith(s, "::*")
    ensures s == s[..|s| - 3] + "::*" && (NoSpace(s[..|s| - 3]) <==> NoSpace(s))
  {
    var less, end := s[..|s| - 3], s[|s| - 3..];
    assert s == less + end;
    assert !IsSpace(end[0]) && !IsSpace(end[1]) && !IsSpace(end[2]);
    assert forall k :: 0 <= k < |less| ==> s[k] == less[k];
  }

  lemma {:induction false} TrimStarsEnds(s: string)
    ensures !EndsWith(TrimStars(s), "::*") && (NoSpace(TrimStars(s)) ==> NoSpace(s))
    decreases |s|
  {
    if EndsWith(s, "::*") {
      StarSplit(s);
      TrimStarsEnds(s[..|s| - 3]);
    }
  }

  /** Trimming a longer text first trims the end of it. */
  lemma {:induction false} TrimStarsInner(front: string, path: string)
    ensures TrimStars(front + path) == TrimStars(front + TrimStars(path))
    decreases |path|
  {
    if EndsWith(path, "::*") {
      var whole, less := front + path, path[..|path| - 3];
      assert whole[|whole| - 3..] == path[|path| - 3..] && whole[..|whole| - 3] == front + less;
      TrimStarsInner(front, less);
    }
  }

  /** A path with white space in it stays longer than without. */
  lemma {:induction false} TrimSqueezed(s: string)
    ensures |TrimStars(Squeezed(s))| <= |TrimStars(s)|
    ensures !NoSpace(s) ==> |TrimStars(Squeezed(s))| < |TrimStars(s)|
    decreases |s|
  {
    SqueezedShort(s);
    if EndsWith(s, "::*") {
      var less := s[..|s| - 3];
      StarSplit(s);
      SqueezedStar(less);
      TrimSqueezed(less);
      StarTrimmed(Squeezed(less));
    } else {
      TrimStarsShort(Squeezed(s));
    }
  }

  lemma StarTrimmed(s: string)
    ensures TrimStars(s + "::*") == TrimStars(s)
  {
    var whole := s + "::*";
    assert whole[|whole| - 3..] == "::*" && whole[..|whole| - 3] == s;
  }

  lemma GlobShort(around: string, glob: string)
    requires glob == "*"
    ensures |TrimStars(around + "::" + glob)| <= |around|
  {
    assert around + "::" + glob == around + "::*";
    StarTrimmed(around);
    TrimStarsShort(around);
  }

  lemma NotTrimmed(around: string, rest: string)
    requires rest != "" && rest != "*" && rest[0] != ':' && !EndsWith(rest, "::*")
    ensures TrimStars(around + "::" + rest) == around + "::" + rest
  {
    var whole := around + "::" + rest;
    var end := whole[|whole| - 3..];
    assert end[2] == rest[|rest| - 1];
    if |rest| >= 3 {
      assert end == rest[|rest| - 3..];
    } else if |rest| == 2 {
      assert end[1] == rest[0];
    } else {
      assert rest == [rest[0]] && rest[0] != '*';
    }
    assert !EndsWith(whole, "::*");
  }

  lemma {:induction false} EmptyTrim(path: string)
    requires path != "" && path[0] != ':'
    ensures TrimStars(path) != ""
    decreases |path|
  {
    if EndsWith(path, "::*") {
      assert |path| == 3 ==> path == "::*";
      EmptyTrim(path[..|path| - 3]);
    }
  }

  // ---- Renames the code does not see ----

  lemma RenameStays(path: string, alias: Alias)
    requires PathText(path) && WellAlias(Some(alias)) && !Spaced(Some(alias))
    ensures LeafMade(path, Some(alias)) == path + Rename(alias) && |LeafMade(path, Some(alias))| > |path| + 2
    ensures LeafMade(path, Some(alias)) != "self"
  {
    var s, name := path + Rename(alias), alias.name;
    var end := s[|s| - 3..];
    assert s[|path|] == alias.before[0] && IsSpace(alias.before[0]);
    assert end[2] == name[|name| - 1];
    if |name| == 1 {
      assert end[1] == alias.after[|alias.after| - 1] && !IsSpace(':');
    } else {
      assert end[1] == name[|name| - 2];
    }
    assert !EndsWith(s, "::*");
    assert NoSpace("self");
  }

  // ---- Longer paths ----

  predicate Longer(made: string, meant: string) {
    made == meant || |made| > |meant|
  }

  ghost predicate AllLonger(made: seq<string>, meant: seq<string>) {
    |made| == |meant| && forall k :: 0 <= k < |made| ==> Longer(made[k], meant[k])
  }

  lemma MeantShort(around: string, path: string)
    ensures |TrimStars(around + "::" + Squeezed(path))| <= |around| + 2 + |TrimStars(Squeezed(path))|
  {
    TrimStarsInner(around + "::", Squeezed(path));
    TrimStarsShort(around + "::" + TrimStars(Squeezed(path)));
  }

  /** A leaf whose path has no white space. */
  lemma PlainLeaf(made: string, around: string, path: string)
    requires Longer(made, around) && NoSpace(path) && ItemPath(path) && path != "self"
    ensures Longer(Under(made, TrimStars(path)), Meant(Some(around), path))
    ensures Under(made, TrimStars(path)) == Meant(Some(around), path) <==> made == around && TrimStars(path) != "*"
  {
    var rest := TrimStars(path);
    PlainMeant(around, path);
    if rest == "*" {
      assert |Under(made, rest)| == |made| + 3;
    } else {
      JoinLonger(made, around, rest, rest);
    }
  }

  lemma PlainMeant(around: string, path: string)
    requires NoSpace(path) && ItemPath(path) && path != "self"
    ensures if TrimStars(path) == "*" then |Meant(Some(around), path)| <= |around|
            else Meant(Some(around), path) == around + "::" + TrimStars(path)
  {
    var rest := TrimStars(path);
    SqueezedShort(path);
    TrimStarsInner(around + "::", path);
    if rest == "*" {
      GlobShort(around, rest);
    } else {
      EmptyTrim(path);
      TrimStarsShort(path);
      TrimStarsEnds(path);
      NotTrimmed(around, rest);
    }
  }

  lemma SpacyLeaf(made: string, around: string, path: string)
    requires Longer(made, around) && !NoSpace(path)
    ensures path != "self" && |made + "::" + TrimStars(path)| > |Meant(Some(around), path)|
  {
    assert NoSpace("self");
    TrimSqueezed(path);
    MeantShort(around, path);
  }

  lemma RenamedLeaf(made: string, around: string, path: string, alias: Alias)
    requires Longer(made, around) && PathText(path) && WellAlias(Some(alias)) && !Spaced(Some(alias))
    ensures |Under(made, LeafMade(path, Some(alias)))| > |Meant(Some(around), path)|
  {
    RenameStays(path, alias);
    MeantShort(around, path);
    TrimStarsShort(Squeezed(path));
    SqueezedShort(path);
  }

  lemma SelfMeant(path: string)
    requires path == "self"
    ensures TrimStars(path) == path && NoSpace(path)
  {
  }

  /** A leaf under a prefix: the code is right or makes its path longer. */
  lemma LeafMeant(made: string, around: string, path: string, alias: Option<Alias>)
    requires Longer(made, around) && PathText(path) && WellAlias(alias) && ItemPath(path)
    ensures var m, p := Under(made, LeafMade(path, alias)), Meant(Some(around), path);
            Longer(m, p) && (m == p <==> made == around && CleanLeaf(path, alias, true))
    ensures LeafMade(path, alias) == "self" ==> path == "self"
  {
    if !Spaced(alias) {
      RenamedLeaf(made, around, path, alias.value);
      RenameStays(path, alias.value);
    } else if path == "self" {
      SelfMeant(path);
    } else if NoSpace(path) {
      PlainLeaf(made, around, path);
    } else {
      SpacyLeaf(made, around, path);
    }
  }

  // ---- Under a prefix ----

  lemma UnderTwice(around: string, prefix: string, path: string)
    requires prefix != "self"
    ensures Under(prefix, path) != "self"
    ensures Under(around, Under(prefix, path)) == Under(around + "::" + prefix, path)
  {
    var whole := prefix + "::" + path;
    assert whole[|prefix|] == ':';
    assert ':' in whole && ':' !in "self";
    assert around + "::" + (prefix + "::" + path) == around + "::" + prefix + "::" + path;
  }

  lemma AllUnderTwice(around: string, prefix: string, paths: seq<string>)
    requires prefix != "self"
    ensures AllUnder(around, AllUnder(prefix, paths)) == AllUnder(around + "::" + prefix, paths)
    ensures "self" !in AllUnder(prefix, paths)
  {
    forall k | 0 <= k < |paths|
      ensures Under(around, Under(prefix, paths[k])) == Under(around + "::" + prefix, paths[k])
      ensures Under(prefix, paths[k]) != "self"
    {
      UnderTwice(around, prefix, paths[k]);
    }
  }

  /** A group without a prefix puts "::" before each path. */
  lemma UnderNothing(around: string, path: string)
    ensures |Under(around, Under("", path))| == |Under(around, path)| + 2 && Under("", path) != "self"
  {
    UnderTwice(around, "", path);
  }

  lemma NothingLonger(around: string, paths: seq<string>, meant: seq<string>)
    requires AllLonger(AllUnder(around, paths), meant)
    ensures AllLonger(AllUnder(around, AllUnder("", paths)), meant) && "self" !in AllUnder("", paths)
    ensures paths != [] ==> AllUnder(around, AllUnder("", paths)) != meant
  {
    var made := AllUnder(around, AllUnder("", paths));
    forall k | 0 <= k < |paths| ensures |made[k]| > |meant[k]| && Under("", paths[k]) != "self" {
      UnderNothing(around, paths[k]);
      assert Longer(AllUnder(around, paths)[k], meant[k]);
    }
    if paths != [] { assert |made[0]| > |meant[0]|; }
  }

  lemma PrefixLonger(prefix: Option<Prefix>)
    requires WellPrefix(prefix) && prefix.Some?
    ensures Longer(PrefixMade(prefix), Squeezed(prefix.value.path))
    ensures PrefixMade(prefix) == Squeezed(prefix.value.path) <==> CleanPrefix(prefix)
    ensures PrefixMade(prefix) == "self" ==> prefix.value.path == "self" == Squeezed(prefix.value.path)
  {
    var path, before := prefix.value.path, prefix.value.before;
    SqueezedShort(path);
    assert NoSpace("self");
    if before == "" {
      assert PrefixMade(prefix) == path;
    } else {
      assert PrefixMade(prefix)[|path|] == before[0] && IsSpace(before[0]);
    }
  }

  lemma JoinLonger(a: string, b: string, c: string, d: string)
    requires Longer(a, b) && Longer(c, d)
    ensures Longer(a + "::" + c, b + "::" + d) && (a + "::" + c == b + "::" + d <==> a == b && c == d)
  {
    assert a != b || c != d ==> |a + "::" + c| > |b + "::" + d|;
  }

  lemma {:induction false} SumsEqual(a: seq<string>, b: seq<string>, c: seq<string>, d: seq<string>)
    requires |a| == |c|
    ensures a + b == c + d <==> a == c && b == d
  {
    if a + b == c + d {
      assert a == (a + b)[..|a|] && c == (c + d)[..|c|];
      assert b == (a + b)[|a|..] && d == (c + d)[|c|..];
    }
  }

  lemma {:induction false} NoLeavesClean(items: seq<Tree>)
    requires LeavesOf(items) == 0 && forall k :: 0 <= k < |items| ==> WellFormed(items[k])
    ensures AllClean(items)
  {
    if items != [] {
      NoLeavesClean(items[..|items| - 1]);
    }
  }

  /** What holds of what the code makes of trees with `leaves` leaves under `made`
      when they are meant under `around`. */
  ghost predicate Compares(made: string, around: string, paths: seq<string>, meant: seq<string>, leaves: nat, clean: bool) {
    && AllLonger(AllUnder(made, paths), meant)
    && (AllUnder(made, paths) == meant <==> leaves == 0 || (made == around && clean))
    && Selves(around, paths, meant)
  }

  lemma LeafCompares(made: string, around: string, path: string, alias: Option<Alias>)
    requires Longer(made, around) && PathText(path) && WellAlias(alias) && ItemPath(path)
    ensures Compares(made, around, [LeafMade(path, alias)], [Meant(Some(around), path)], 1, CleanLeaf(path, alias, true))
  {
    LeafMeant(made, around, path, alias);
    assert AllUnder(made, [LeafMade(path, alias)]) == [Under(made, LeafMade(path, alias))];
  }

  lemma {:induction false} TreeMeant(made: string, around: string, t: Tree)
    requires Longer(made, around) && WellFormed(t) && Usual(t, true)
    ensures Compares(made, around, Expanded(t), Meaning(Some(around), t), Leaves(t), Clean(t, true))
    decreases t, 0
  {
    match t
    case Leaf(_, path, alias, _) =>
      LeafCompares(made, around, path, alias);
    case Group(_, prefix, items, _, _) =>
      GroupMeant(made, around, prefix, items);
  }

  lemma {:induction false} GroupMeant(made: string, around: string, prefix: Option<Prefix>, items: seq<Tree>)
    requires Longer(made, around) && WellPrefix(prefix) && (prefix.Some? ==> prefix.value.path != "self")
    requires AllUsual(items)
    ensures Compares(made, around, AllUnder(PrefixMade(prefix), ExpandedItems(items)),
                     MeaningItems(Around(Some(around), prefix), items), LeavesOf(items),
                     LeavesOf(items) == 0 || (CleanPrefix(prefix) && AllClean(items)))
    decreases items, 1
  {
    var paths := ExpandedItems(items);
    if prefix.None? {
      ItemsMeant(made, around, items);
      NothingLonger(made, paths, MeaningItems(Some(around), items));
    } else {
      PrefixLonger(prefix);
      JoinLonger(made, around, PrefixMade(prefix), Squeezed(prefix.value.path));
      var made', around' := made + "::" + PrefixMade(prefix), around + "::" + Squeezed(prefix.value.path);
      ItemsMeant(made', around', items);
      AllUnderTwice(made, PrefixMade(prefix), paths);
    }
  }

  ghost predicate ItemsCompare(made: string, around: string, items: seq<Tree>)
    requires forall k :: 0 <= k < |items| ==> WellFormed(items[k])
  {
    Compares(made, around, ExpandedItems(items), MeaningItems(Some(around), items), LeavesOf(items), AllClean(items))
  }

  lemma {:induction false} ItemsMeant(made: string, around: string, items: seq<Tree>)
    requires Longer(made, around) && AllUsual(items)
    ensures ItemsCompare(made, around, items)
    decreases items, 0
  {
    if items == [] {
      NoItemsMeant(made, around);
    } else {
      ItemsMeant(made, around, items[..|items| - 1]);
      TreeMeant(made, around, items[|items| - 1]);
      MoreMeant(made, around, items);
    }
  }

  lemma NoItemsMeant(made: string, around: string)
    ensures ItemsCompare(made, around, [])
  {
    assert AllUnder(made, []) == [];
  }

  lemma MoreMeant(made: string, around: string, items: seq<Tree>)
    requires items != [] && forall k :: 0 <= k < |items| ==> WellFormed(items[k])
    requires ItemsCompare(made, around, items[..|items| - 1])
    requires var last := items[|items| - 1];
             Compares(made, around, Expanded(last), Meaning(Some(around), last), Leaves(last), Clean(last, true))
    ensures ItemsCompare(made, around, items)
  {
    var before, last := items[..|items| - 1], items[|items| - 1];
    if LeavesOf(before) == 0 { NoLeavesClean(before); }
    ComparesSum(made, around, ExpandedItems(before), MeaningItems(Some(around), before), LeavesOf(before),
                AllClean(before), Expanded(last), Meaning(Some(around), last), Leaves(last), Clean(last, true));
  }

  lemma ComparesSum(made: string, around: string, a: seq<string>, b: seq<string>, m: nat, p: bool,
                    c: seq<string>, d: seq<string>, n: nat, q: bool)
    requires Compares(made, around, a, b, m, p) && Compares(made, around, c, d, n, q)
    requires (m == 0 ==> p) && (n == 0 ==> q)
    ensures Compares(made, around, a + c, b + d, m + n, p && q)
  {
    AllUnderSum(made, a, c);
    SumsEqual(AllUnder(made, a), AllUnder(made, c), b, d);
    AllLongerSum(AllUnder(made, a), b, AllUnder(made, c), d);
    SelvesSum(around, a, b, c, d);
  }

  lemma AllLongerSum(a: seq<string>, b: seq<string>, c: seq<string>, d: seq<string>)
    requires AllLonger(a, b) && AllLonger(c, d)
    ensures AllLonger(a + c, b + d)
  {
  }

  ghost predicate Selves(around: string, paths: seq<string>, meant: seq<string>) {
    |paths| == |meant| && forall k :: 0 <= k < |paths| && paths[k] == "self" ==> meant[k] == around
  }

  lemma SelvesSum(around: string, a: seq<string>, b: seq<string>, c: seq<string>, d: seq<string>)
    requires Selves(around, a, b) && Selves(around, c, d)
    ensures Selves(around, a + c, b + d)
  {
  }

  // ---- The whole tree ----

  predicate AllColons(s: string) {
    forall k :: 0 <= k < |s| ==> s[k] == ':'
  }

  /** Outside every prefix the code is right, or makes a path longer, or leaves
      nothing but colons of a `self`. */
  predicate Apart(made: string, meant: string) {
    && (Longer(made, meant) || (meant == "self" && AllColons(made)))
    && (made == "self" ==> meant == "self")
  }

  ghost predicate AllApart(made: seq<string>, meant: seq<string>) {
    |made| == |meant| && forall k :: 0 <= k < |made| ==> Apart(made[k], meant[k])
  }

  lemma ApartUnderNothing(made: string, meant: string)
    requires Apart(made, meant)
    ensures Apart(Under("", made), meant) && Under("", made) != meant
  {
    if made == "self" {
      assert Under("", made) == "";
    } else {
      assert Under("", made) == "::" + made && |"::" + made| == |made| + 2;
      assert ("::" + made)[0] == ':' && "self"[0] == 's';
    }
  }

  lemma TopLeaf(path: string, alias: Option<Alias>)
    requires PathText(path) && WellAlias(alias)
    ensures Apart(LeafMade(path, alias), Meant(None, path))
    ensures LeafMade(path, alias) == Meant(None, path) <==> CleanLeaf(path, alias, false)
  {
    if Spaced(alias) {
      TopPath(path);
    } else {
      TopRenamed(path, alias.value);
    }
  }

  lemma TopPath(path: string)
    ensures Apart(TrimStars(path), Meant(None, path)) && (TrimStars(path) == Meant(None, path) <==> NoSpace(path))
  {
    SqueezedShort(path);
    if !NoSpace(path) {
      TrimSqueezed(path);
      TrimStarsEnds(path);
      SpaceNotSelf(TrimStars(path));
    }
  }

  lemma SpaceNotSelf(s: string)
    requires !NoSpace(s)
    ensures s != "self"
  {
  }

  lemma TopRenamed(path: string, alias: Alias)
    requires PathText(path) && WellAlias(Some(alias)) && !Spaced(Some(alias))
    ensures var made := LeafMade(path, Some(alias)); |made| > |Meant(None, path)| && made != "self"
  {
    SqueezedShort(path);
    TrimStarsShort(Squeezed(path));
    RenameStays(path, alias);
  }

  lemma PrefixedGroup(prefix: Option<Prefix>, items: seq<Tree>)
    requires WellPrefix(prefix) && prefix.Some?
    requires AllUsual(items)
    ensures var made, meant := AllUnder(PrefixMade(prefix), ExpandedItems(items)), MeaningItems(Around(None, prefix), items);
            && AllApart(made, meant)
            && (made == meant <==> LeavesOf(items) == 0 || (CleanPrefix(prefix) && AllClean(items)))
  {
    var made, around := PrefixMade(prefix), Squeezed(prefix.value.path);
    PrefixLonger(prefix);
    ItemsMeant(made, around, items);
    ComparesApart(made, around, ExpandedItems(items), MeaningItems(Some(around), items), LeavesOf(items), AllClean(items));
  }

  lemma ComparesApart(made: string, around: string, paths: seq<string>, meant: seq<string>, leaves: nat, clean: bool)
    requires Compares(made, around, paths, meant, leaves, clean) && (made == "self" ==> around == "self")
    ensures AllApart(AllUnder(made, paths), meant)
  {
    forall k | 0 <= k < |paths| ensures Apart(AllUnder(made, paths)[k], meant[k]) {
      assert Longer(AllUnder(made, paths)[k], meant[k]);
      if Under(made, paths[k]) == "self" { UnderIsSelf(made, paths[k]); }
    }
  }

  lemma UnderIsSelf(prefix: string, path: string)
    requires Under(prefix, path) == "self"
    ensures prefix == "self" && path == "self"
  {
    assert (prefix + "::" + path)[|prefix|] == ':';
    assert ':' !in "self";
  }

  lemma {:induction false} TopMeant(t: Tree)
    requires WellFormed(t) && Usual(t, false)
    ensures AllApart(Expanded(t), Meaning(None, t)) && (Expanded(t) == Meaning(None, t) <==> Clean(t, false))
    decreases t, 0
  {
    match t
    case Leaf(_, path, alias, _) =>
      TopLeaf(path, alias);
    case Group(_, prefix, items, _, _) =>
      if prefix.Some? {
        PrefixedGroup(prefix, items);
      } else {
        TopItemsApart(items, |items|);
        assert items[..|items|] == items;
        var made, meant := AllUnder("", ExpandedItems(items)), MeaningItems(None, items);
        forall k | 0 <= k < |made| ensures Apart(made[k], meant[k]) && made[k] != meant[k] {
          ApartUnderNothing(ExpandedItems(items)[k], meant[k]);
        }
        if LeavesOf(items) > 0 { assert made[0] != meant[0]; }
      }
  }

  lemma {:induction false} TopItemsApart(items: seq<Tree>, n: nat)
    requires n <= |items| && forall k :: 0 <= k < |items| ==> WellFormed(items[k]) && Usual(items[k], false)
    ensures AllApart(ExpandedItems(items[..n]), MeaningItems(None, items[..n]))
    decreases items, n
  {
    if n > 0 {
      TopItemsApart(items, n - 1);
      TopMeant(items[n - 1]);
      assert items[..n][..n - 1] == items[..n - 1];
    }
  }

  /** Any rendering of a tree expands to what the tree means exactly when every
      group that has a leaf has a prefix and no glob of itself among its items, no
      path has white space in it, and every rename is written with spaces. */
  lemma ExpandsToMeaning(t: Tree)
    requires WellFormed(t) && Usual(t, false)
    ensures Expand(Render(t)) == Some(Meaning(None, t)) <==> Clean(t, false)
  {
    RenderExpands(t);
    TopMeant(t);
  }

  // ---- Where it goes wrong ----

  /** A group with `*` among its items does not expand to what it means. */
  lemma GroupGlob(t: Tree, k: nat)
    requires WellFormed(t) && Usual(t, false) && t.Group? && k < |t.items| && t.items[k].Leaf? && t.items[k].path == "*"
    ensures Expand(Render(t)) != Some(Meaning(None, t))
  {
    assert t.items[..|t.items|] == t.items;
    if LeavesOf(t.items) == 0 { EachLeaf(t.items, |t.items|, k); }
    assert !Clean(t.items[k], true);
    if AllClean(t.items) { EachClean(t.items, k); }
    ExpandsToMeaning(t);
  }

  lemma {:induction false} EachLeaf(items: seq<Tree>, n: nat, k: nat)
    requires k < n <= |items|
    ensures Leaves(items[k]) <= LeavesOf(items[..n])
  {
    assert items[..n][..n - 1] == items[..n - 1];
    if k < n - 1 { EachLeaf(items, n - 1, k); }
  }

  /** Nor does a group without a prefix, unless it has no leaf. */
  lemma GroupWithoutPrefix(t: Tree)
    requires WellFormed(t) && Usual(t, false) && t.Group? && t.prefix.None?
    ensures Expand(Render(t)) == Some(Meaning(None, t)) <==> Leaves(t) == 0
  {
    ExpandsToMeaning(t);
  }

  const A: Tree := Leaf("", "a", None, "")

  lemma PlainA()
    ensures WellFormed(A) && Usual(A, true) && Usual(A, false) && Render(A) == "a" && Expanded(A) == ["a"] && Leaves(A) == 1
  {
    assert !EndsWith("a", "::*") && "" + "a" + "" == "a";
    assert forall k :: 0 <= k < |"a"| ==> !AsAt("a" + " ", k);
  }

  /** `{a}` expands to `::a`. */
  lemma BareGroup()
    ensures Expand("{a}") == Some(["::a"]) && Render(Group("", None, [A], None, "")) == "{a}"
    ensures Meaning(None, Group("", None, [A], None, "")) == ["a"]
  {
    var t := Group("", None, [A], None, "");
    PlainA();
    OneItem(t, A, "a", "::a");
    assert Render(t) == "{a}";
    assert [A][..0] == [];
    assert Squeezed("a") == "a";
    assert MeaningItems(None, [A]) == ["a"];
  }

  /** `a::{*}` expands to `a::*`. */
  lemma BareStar(t: Tree, star: Tree)
    requires WellFormed(t) && t.Group? && t.items == [star] && WellFormed(star) && Expanded(star) == ["*"]
    ensures Expand(Render(t)) == Some([PrefixMade(t.prefix) + "::" + "*"])
  {
    OneItem(t, star, "*", PrefixMade(t.prefix) + "::" + "*");
  }

  lemma OneItem(t: Tree, item: Tree, path: string, whole: string)
    requires WellFormed(t) && t.Group? && t.items == [item] && WellFormed(item) && Expanded(item) == [path]
    requires path != "self" && whole == PrefixMade(t.prefix) + "::" + path
    ensures Expand(Render(t)) == Some([whole])
  {
    RenderExpands(t);
    assert t.items[..|t.items| - 1] == [];
    assert ExpandedItems(t.items) == [path];
    OneUnder(PrefixMade(t.prefix), path);
  }

  lemma OneUnder(prefix: string, path: string)
    requires path != "self"
    ensures AllUnder(prefix, [path]) == [prefix + "::" + path]
  {
  }

  /** A rename with a tab or a newline beside its `as` stays on the path. */
  lemma HiddenRename(path: string, alias: Alias)
    requires PathText(path) && WellAlias(Some(alias)) && !Spaced(Some(alias))
    ensures Expand(path + Rename(alias)) == Some([path + Rename(alias)])
  {
    LeafExpands("", path, Some(alias), "");
    RenameStays(path, alias);
    assert "" + LeafBody(path, Some(alias)) + "" == path + Rename(alias);
  }
}
