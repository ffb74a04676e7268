/** What the merged coverage says (xtask/src/coverage.rs): lines hit, lines only
    the end-to-end level reaches, files nothing reaches. */
module CoverageReport {
  import opened Basics
  import opened Orders
  import opened Merging
  import opened LineCounts

  // ---- Lines of files, counted ----

  /** The lines of the files `paths`, each with its file. */
  ghost function Pairs(paths: set<string>, lines: string -> set<nat>): set<(string, nat)> {
    set path, line | path in paths && line in lines(path) :: (path, line)
  }

  ghost function Tagged(path: string, lines: set<nat>): set<(string, nat)> {
    set line | line in lines :: (path, line)
  }

  lemma {:induction false} TaggedSize(path: string, lines: set<nat>)
    ensures |Tagged(path, lines)| == |lines|
    decreases |lines|
  {
    if lines != {} {
      var line :| line in lines;
      var rest := lines - {line};
      TaggedSize(path, rest);
      assert Tagged(path, lines) == Tagged(path, rest) + {(path, line)};
    }
  }

  lemma PairsOneMore(paths: set<string>, path: string, lines: string -> set<nat>)
    requires path !in paths
    ensures |Pairs(paths + {path}, lines)| == |Pairs(paths, lines)| + |lines(path)|
  {
    assert Pairs(paths + {path}, lines) == Pairs(paths, lines) + Tagged(path, lines(path));
    assert Pairs(paths, lines) !! Tagged(path, lines(path));
    TaggedSize(path, lines(path));
  }

  lemma OnceEach<T>(s: seq<T>, elements: set<T>)
    requires multiset(s) == multiset(elements)
    ensures Distinct(s)
  {
    forall i, j | 0 <= i < j < |s| ensures s[i] != s[j] {
      var rest := s[..i] + s[i + 1..];
      assert s == s[..i] + [s[i]] + s[i + 1..];
      assert multiset(s) == multiset(rest) + multiset{s[i]};
      assert multiset(elements)[s[i]] <= 1;
      assert multiset(rest)[s[i]] == 0;
      assert rest[j - 1] == s[j];
    }
  }

  function SetOf<T(==)>(s: seq<T>): set<T> {
    set x | x in s
  }

  lemma SetOfSnoc<T>(s: seq<T>, k: nat)
    requires k < |s| && Distinct(s)
    ensures SetOf(s[..k + 1]) == SetOf(s[..k]) + {s[k]} && s[k] !in s[..k]
  {
    assert s[..k + 1] == s[..k] + [s[k]];
  }

  // ---- One level's summary ----

  function Hit(counts: Counts): set<nat> {
    set line | line in counts && counts[line] > 0
  }

  /** A file's number of lines, and of lines hit. */
  function Tally(counts: Counts): (nat, nat) {
    (|counts|, |Hit(counts)|)
  }

  /** The lines of a level that ran. */
  ghost function HitPairs(lines: Lines): set<(string, nat)> {
    Pairs(lines.Keys, path => Hit(At(COUNTS, lines, path)))
  }

  ghost function FoundPairs(lines: Lines): set<(string, nat)> {
    Pairs(lines.Keys, path => At(COUNTS, lines, path).Keys)
  }

  lemma PairsMean(lines: Lines)
    ensures FoundPairs(lines) == set path, line | path in lines && line in lines[path] :: (path, line)
    ensures HitPairs(lines) == set path, line | path in lines && line in lines[path] && lines[path][line] > 0 :: (path, line)
  {
  }

  /** The totals of the summary line. */
  method Summary(lines: Lines) returns (found: nat, hit: nat)
    ensures found == |FoundPairs(lines)| && hit == |HitPairs(lines)|
    ensures found == |set path, line | path in lines && line in lines[path] :: (path, line)|
    ensures hit == |set path, line | path in lines && line in lines[path] && lines[path][line] > 0 :: (path, line)|
  {
    PairsMean(lines);
    var order := SortedKeys(lines.Keys);
    OnceEach(order, lines.Keys);
    found, hit := 0, 0;
    ghost var hits, finds := (path: string) => Hit(At(COUNTS, lines, path)), (path: string) => At(COUNTS, lines, path).Keys;
    for k := 0 to |order|
      invariant found == |Pairs(SetOf(order[..k]), finds)| && hit == |Pairs(SetOf(order[..k]), hits)|
    {
      SetOfSnoc(order, k);
      PairsOneMore(SetOf(order[..k]), order[k], hits);
      PairsOneMore(SetOf(order[..k]), order[k], finds);
      assert order[k] in lines;
      var tally := Tally(lines[order[k]]);
      found, hit := found + tally.0, hit + tally.1;
    }
    assert order[..|order|] == order && SetOf(order) == lines.Keys;
  }

  // ---- What only the end-to-end level reaches ----

  /** The lines of one file that `e2e` reaches and `below` does not. */
  function OnlyIn(e2e: Counts, below: Counts): set<nat> {
    set line | line in e2e && e2e[line] > 0 && (line in below ==> below[line] == 0)
  }

  ghost function OnlyPairs(e2e: Lines, below: Lines): set<(string, nat)> {
    Pairs(e2e.Keys, path => OnlyIn(At(COUNTS, e2e, path), At(COUNTS, below, path)))
  }

  lemma HitOfSum(below: Counts, e2e: Counts)
    ensures Hit(AddCounts(below, e2e)) == Hit(below) + OnlyIn(e2e, below) && Hit(below) !! OnlyIn(e2e, below)
  {
    var sum := AddCounts(below, e2e);
    forall line ensures line in Hit(sum) <==> line in Hit(below) || line in OnlyIn(e2e, below) {
      assert line in sum <==> line in below || line in e2e;
      if line in sum { assert sum[line] == SaturatingAdd(At(TIMES, below, line), At(TIMES, e2e, line)); }
    }
  }

  /** File by file: the lines hit in the merged level are those hit below and
      those only the end-to-end level hits. */
  lemma FileHits(below: Counts, e2e: Counts)
    ensures |Hit(AddCounts(below, e2e))| == |Hit(below)| + |OnlyIn(e2e, below)|
  {
    HitOfSum(below, e2e);
  }

  /** And in total. */
  lemma TotalHits(below: Lines, e2e: Lines)
    ensures |HitPairs(Add(below, e2e))| == |HitPairs(below)| + |OnlyPairs(e2e, below)|
  {
    var sum := Add(below, e2e);
    forall path ensures Hit(At(COUNTS, sum, path)) == Hit(At(COUNTS, below, path)) + OnlyIn(At(COUNTS, e2e, path), At(COUNTS, below, path))
                        && Hit(At(COUNTS, below, path)) !! OnlyIn(At(COUNTS, e2e, path), At(COUNTS, below, path))
    {
      SumAt(below, e2e, path);
      HitOfSum(At(COUNTS, below, path), At(COUNTS, e2e, path));
    }
    PairsSplit(sum, below, e2e);
  }

  lemma SumAt(below: Lines, e2e: Lines, path: string)
    ensures At(COUNTS, Add(below, e2e), path) == AddCounts(At(COUNTS, below, path), At(COUNTS, e2e, path))
  {
    CountsLawful();
    MergeAt(COUNTS, below, e2e, path);
  }

  lemma PairsSplit(sum: Lines, below: Lines, e2e: Lines)
    requires sum.Keys == below.Keys + e2e.Keys
    requires forall path :: Hit(At(COUNTS, sum, path)) ==
               Hit(At(COUNTS, below, path)) + OnlyIn(At(COUNTS, e2e, path), At(COUNTS, below, path))
    requires forall path :: Hit(At(COUNTS, below, path)) !! OnlyIn(At(COUNTS, e2e, path), At(COUNTS, below, path))
    ensures HitPairs(sum) == HitPairs(below) + OnlyPairs(e2e, below) && HitPairs(below) !! OnlyPairs(e2e, below)
  {
  }

  /** The most lines first; of as many, by path. */
  predicate MostFirst(a: (nat, string), b: (nat, string)) {
    a.0 > b.0 || (a.0 == b.0 && StringLe(a.1, b.1))
  }

  lemma MostFirstOrder()
    ensures TotalOrder(MostFirst)
  {
    forall a, b ensures MostFirst(a, b) || MostFirst(b, a) { StringLeTotal(a.1, b.1); }
    forall a, b | MostFirst(a, b) && MostFirst(b, a) ensures a == b { StringLeAntisymmetric(a.1, b.1); }
    forall a, b, c | MostFirst(a, b) && MostFirst(b, c) ensures MostFirst(a, c) {
      if a.0 == b.0 && b.0 == c.0 { StringLeTransitive(a.1, b.1, c.1); }
    }
  }

  function Sum(files: seq<(nat, string)>): nat {
    if files == [] then 0 else files[0].0 + Sum(files[1..])
  }

  lemma {:induction false} SumInsert(x: (nat, string), files: seq<(nat, string)>)
    ensures Sum(Insert(MostFirst, x, files)) == x.0 + Sum(files)
  {
    var r := Insert(MostFirst, x, files);
    if files != [] && !MostFirst(x, files[0]) {
      SumInsert(x, files[1..]);
      assert r[1..] == Insert(MostFirst, x, files[1..]);
    } else {
      assert r[1..] == files;
    }
  }

  lemma {:induction false} SumSort(files: seq<(nat, string)>)
    ensures Sum(Sort(MostFirst, files)) == Sum(files)
  {
    if files != [] {
      SumSort(files[1..]);
      SumInsert(files[0], Sort(MostFirst, files[1..]));
    }
  }

  lemma {:induction false} SumSnoc(files: seq<(nat, string)>, x: (nat, string))
    ensures Sum(files + [x]) == Sum(files) + x.0
  {
    if files != [] {
      SumSnoc(files[1..], x);
      assert (files + [x])[1..] == files[1..] + [x];
    }
  }

  ghost predicate Listed(files: seq<(nat, string)>, paths: seq<string>, e2e: Lines, below: Lines) {
    forall entry :: entry in files <==>
      && entry.1 in paths && entry.0 > 0
      && entry.0 == |OnlyIn(At(COUNTS, e2e, entry.1), At(COUNTS, below, entry.1))|
  }

  lemma ListedMore(found: seq<(nat, string)>, order: seq<string>, k: nat, e2e: Lines, below: Lines)
    requires k < |order| && Listed(found, order[..k], e2e, below)
    ensures var lines := |OnlyIn(At(COUNTS, e2e, order[k]), At(COUNTS, below, order[k]))|;
            Listed(if lines > 0 then found + [(lines, order[k])] else found, order[..k + 1], e2e, below)
  {
    assert order[..k + 1] == order[..k] + [order[k]];
  }

  method CollectOnly(e2e: Lines, below: Lines, order: seq<string>) returns (found: seq<(nat, string)>)
    requires Distinct(order) && forall path :: path in order ==> path in e2e
    ensures Listed(found, order, e2e, below)
    ensures Sum(found) == |Pairs(SetOf(order), path => OnlyIn(At(COUNTS, e2e, path), At(COUNTS, below, path)))|
  {
    found := [];
    ghost var only := (path: string) => OnlyIn(At(COUNTS, e2e, path), At(COUNTS, below, path));
    for k := 0 to |order|
      invariant Sum(found) == |Pairs(SetOf(order[..k]), only)| && Listed(found, order[..k], e2e, below)
    {
      SetOfSnoc(order, k);
      PairsOneMore(SetOf(order[..k]), order[k], only);
      ListedMore(found, order, k, e2e, below);
      var lines := |OnlyIn(e2e[order[k]], if order[k] in below then below[order[k]] else map[])|;
      if lines > 0 {
        SumSnoc(found, (lines, order[k]));
        found := found + [(lines, order[k])];
      }
    }
    assert order[..|order|] == order;
  }

  /** The entries are the files with lines that `e2e` ran and `below` did not, each
      with how many. */
  ghost predicate ListsOnly(files: seq<(nat, string)>, e2e: Lines, below: Lines) {
    forall n, path :: (n, path) in files <==>
      && path in e2e && n > 0
      && n == |set line | line in e2e[path] && e2e[path][line] > 0
                          && (path in below && line in below[path] ==> below[path][line] == 0)|
  }

  /** The files with lines only `e2e` reaches, with how many, the most first. */
  method E2eOnly(e2e: Lines, below: Lines) returns (files: seq<(nat, string)>, ghost paths: seq<string>)
    ensures multiset(paths) == multiset(e2e.Keys) && Listed(files, paths, e2e, below)
    ensures Sorted(MostFirst, files) && Sum(files) == |OnlyPairs(e2e, below)|
    ensures ListsOnly(files, e2e, below)
    ensures forall i, j :: 0 <= i < j < |files| ==>
              files[i].0 > files[j].0 || (files[i].0 == files[j].0 && StringLe(files[i].1, files[j].1))
  {
    var order := SortedKeys(e2e.Keys);
    paths := order;
    OnceEach(order, e2e.Keys);
    var found: seq<(nat, string)> := CollectOnly(e2e, below, order);
    assert SetOf(order) == e2e.Keys;
    files := Sort<(nat, string)>(MostFirst, found);
    ListedSorted(found, files, order, e2e, below);
    ListedMeans(files, order, e2e, below);
  }

  lemma ListedSorted(found: seq<(nat, string)>, files: seq<(nat, string)>, order: seq<string>, e2e: Lines, below: Lines)
    requires Listed(found, order, e2e, below) && files == Sort<(nat, string)>(MostFirst, found)
    ensures Listed(files, order, e2e, below) && Sorted(MostFirst, files) && Sum(files) == Sum(found)
  {
    MostFirstOrder();
    SortSorts<(nat, string)>(MostFirst, found);
    SumSort(found);
    forall entry ensures entry in files <==> entry in found {
      assert entry in multiset(files) <==> entry in multiset(found);
    }
  }

  lemma OnlyMeans(e2e: Lines, below: Lines, path: string)
    requires path in e2e
    ensures OnlyIn(At(COUNTS, e2e, path), At(COUNTS, below, path)) ==
            set line | line in e2e[path] && e2e[path][line] > 0
                       && (path in below && line in below[path] ==> below[path][line] == 0)
  {
  }

  lemma ListedMeans(files: seq<(nat, string)>, paths: seq<string>, e2e: Lines, below: Lines)
    requires Listed(files, paths, e2e, below) && forall path :: path in paths <==> path in e2e
    ensures ListsOnly(files, e2e, below)
  {
    forall n, path
      ensures (n, path) in files <==>
              && path in e2e && n > 0
              && n == |set line | line in e2e[path] && e2e[path][line] > 0
                                  && (path in below && line in below[path] ==> below[path][line] == 0)|
    {
      if path in e2e { OnlyMeans(e2e, below, path); }
    }
  }

  /** Lines hit in the merged level are lines hit below and the counts of the
      end-to-end-only list. */
  method MergedHits(below: Lines, e2e: Lines) returns (hit: nat, lower: nat, files: seq<(nat, string)>)
    requires FitLines(below) && FitLines(e2e)
    ensures hit == |HitPairs(Add(below, e2e))| && lower == |HitPairs(below)| && hit == lower + Sum(files)
  {
    var merged := AddInto(below, e2e);
    var found;
    found, hit := Summary(merged);
    found, lower := Summary(below);
    ghost var paths;
    files, paths := E2eOnly(e2e, below);
    TotalHits(below, e2e);
  }

  // ---- What nothing reaches ----

  /** A file that has lines, none of which ran. */
  predicate NeverRan(counts: Counts) {
    counts != map[] && forall line :: line in counts ==> counts[line] == 0
  }

  method Unreached(lines: Lines) returns (paths: seq<string>)
    ensures forall path :: path in paths <==> path in lines && NeverRan(lines[path])
    ensures forall path :: path in paths <==>
              && path in lines && (exists line :: line in lines[path])
              && forall line :: line in lines[path] ==> lines[path][line] == 0
    ensures Sorted(StringLe, paths) && multiset(paths) <= multiset(lines.Keys)
  {
    var order := SortedKeys(lines.Keys);
    paths := [];
    for k := 0 to |order|
      invariant forall path :: path in paths <==> path in order[..k] && path in lines && NeverRan(lines[path])
      invariant Sorted(StringLe, paths) && multiset(paths) <= multiset(order[..k])
    {
      assert order[..k + 1] == order[..k] + [order[k]];
      if NeverRan(lines[order[k]]) {
        SortedSnoc(order, k, paths);
        paths := paths + [order[k]];
      }
    }
    assert order[..|order|] == order;
  }

  lemma SortedSnoc(order: seq<string>, k: nat, paths: seq<string>)
    requires k < |order| && Sorted(StringLe, order) && Sorted(StringLe, paths)
    requires forall path :: path in paths ==> path in order[..k]
    ensures Sorted(StringLe, paths + [order[k]])
  {
    var more := paths + [order[k]];
    forall i, j | 0 <= i < j < |more| ensures StringLe(more[i], more[j]) {
      if j == |paths| {
        assert more[i] in paths;
        var at :| 0 <= at < k && order[at] == more[i];
      }
    }
  }

  predicate AllZero(counts: Counts) {
    forall line :: line in counts ==> counts[line] == 0
  }

  ghost predicate SomeLevelHas(levels: seq<Lines>, path: string) {
    exists k :: 0 <= k < |levels| && At(COUNTS, levels[k], path) != map[]
  }

  ghost predicate NoLevelRan(levels: seq<Lines>, path: string) {
    forall k :: 0 <= k < |levels| ==> AllZero(At(COUNTS, levels[k], path))
  }

  lemma LevelsSnoc(levels: seq<Lines>, path: string)
    requires levels != []
    ensures var n := |levels| - 1;
            && (SomeLevelHas(levels, path) <==> SomeLevelHas(levels[..n], path) || At(COUNTS, levels[n], path) != map[])
            && (NoLevelRan(levels, path) <==> NoLevelRan(levels[..n], path) && AllZero(At(COUNTS, levels[n], path)))
  {
    var n := |levels| - 1;
    var before := levels[..n];
    if SomeLevelHas(before, path) {
      var k :| 0 <= k < |before| && At(COUNTS, before[k], path) != map[];
      assert At(COUNTS, levels[k], path) != map[];
    }
    if SomeLevelHas(levels, path) {
      var k :| 0 <= k < |levels| && At(COUNTS, levels[k], path) != map[];
      if k < n { assert At(COUNTS, before[k], path) != map[]; }
    }
    if NoLevelRan(levels, path) {
      forall k | 0 <= k < |before| ensures AllZero(At(COUNTS, before[k], path)) {
        assert AllZero(At(COUNTS, levels[k], path));
      }
    }
  }

  lemma ZeroSum(a: Counts, b: Counts)
    ensures AllZero(AddCounts(a, b)) <==> AllZero(a) && AllZero(b)
    ensures AddCounts(a, b) == map[] <==> a == map[] && b == map[]
  {
    var sum := AddCounts(a, b);
    if AllZero(sum) {
      forall line | line in a ensures a[line] == 0 { assert sum[line] == 0; }
      forall line | line in b ensures b[line] == 0 { assert sum[line] == 0; }
    }
    if a != map[] { var line :| line in a; assert line in sum; }
    if b != map[] { var line :| line in b; assert line in sum; }
  }

  lemma {:induction false} MergedLevels(levels: seq<Lines>, path: string)
    ensures AllZero(At(COUNTS, MergeAll(LINES, levels), path)) <==> NoLevelRan(levels, path)
    ensures At(COUNTS, MergeAll(LINES, levels), path) != map[] <==> SomeLevelHas(levels, path)
  {
    if levels != [] {
      var n := |levels| - 1;
      MergedLevels(levels[..n], path);
      LevelsSnoc(levels, path);
      SumAt(MergeAll(LINES, levels[..n]), levels[n], path);
      ZeroSum(At(COUNTS, MergeAll(LINES, levels[..n]), path), At(COUNTS, levels[n], path));
    }
  }

  lemma SomeLevelMeans(levels: seq<Lines>, path: string)
    ensures SomeLevelHas(levels, path) <==> exists k, line :: 0 <= k < |levels| && Covers(levels[k], path, line)
  {
    if SomeLevelHas(levels, path) {
      var k :| 0 <= k < |levels| && At(COUNTS, levels[k], path) != map[];
      var line :| line in At(COUNTS, levels[k], path);
      assert Covers(levels[k], path, line);
    }
    if k, line :| 0 <= k < |levels| && Covers(levels[k], path, line) {
      assert line in At(COUNTS, levels[k], path);
    }
  }

  /** The merged level lists a file as unreached exactly when some level has
      lines of it and no level ran any. */
  lemma UnreachedByEveryLevel(levels: seq<Lines>, path: string)
    ensures NeverRan(At(COUNTS, MergeAll(LINES, levels), path)) <==> SomeLevelHas(levels, path) && NoLevelRan(levels, path)
    ensures SomeLevelHas(levels, path) <==> exists k, line :: 0 <= k < |levels| && Covers(levels[k], path, line)
    ensures NoLevelRan(levels, path) <==>
            forall k, line :: 0 <= k < |levels| && Covers(levels[k], path, line) ==> levels[k][path][line] == 0
  {
    MergedLevels(levels, path);
    SomeLevelMeans(levels, path);
  }
}
