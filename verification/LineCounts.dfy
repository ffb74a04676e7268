/** Line counts of coverage levels and how they are merged
    (xtask/src/coverage.rs). */
module LineCounts {
  import opened Merging

  /** How often each line of a file ran. */
  type Counts = map<nat, nat>

  type Lines = map<string, Counts>

  const MOST: nat := 0xFFFF_FFFF_FFFF_FFFF

  predicate FitsCount(n: nat) {
    n <= MOST
  }

  function SaturatingAdd(a: nat, b: nat): nat {
    if a + b > MOST then MOST else a + b
  }

  const TIMES: Monoid<nat> := Monoid(SaturatingAdd, 0, FitsCount)

  predicate FitCounts(counts: Counts) {
    forall line :: line in counts ==> counts[line] <= MOST
  }

  const COUNTS: Monoid<Counts> := Merged(TIMES, FitCounts)

  /** The counts of one file added, as far as 64 bits go. */
  function AddCounts(a: Counts, b: Counts): Counts {
    Merge(TIMES, a, b)
  }

  predicate FitLines(lines: Lines) {
    forall path :: path in lines ==> FitCounts(lines[path])
  }

  const LINES: Monoid<Lines> := Merged(COUNTS, FitLines)

  /** The files of both, their counts added. */
  function Add(a: Lines, b: Lines): Lines {
    Merge(COUNTS, a, b)
  }

  lemma TimesLawful()
    ensures Lawful(TIMES)
  {
    forall a, b ensures CommutesAt(TIMES, a, b) { }
    forall a, b, c ensures AssociativeAt(TIMES, a, b, c) { }
    forall a ensures NeutralAt(TIMES, a) { }
    forall a, b ensures ClosedAt(TIMES, a, b) { }
  }

  lemma CountsLawful()
    ensures Lawful(COUNTS)
  {
    TimesLawful();
    MergedLawful<nat, nat>(TIMES, FitCounts);
  }

  /** Adding is commutative and associative, although counts saturate, and
      adding nothing changes nothing. */
  lemma LinesLawful()
    ensures Lawful(LINES)
  {
    CountsLawful();
    MergedLawful<string, Counts>(COUNTS, FitLines);
  }

  /** Merging levels or groups in any order gives one result. */
  lemma AnyOrder(a: seq<Lines>, b: seq<Lines>)
    requires multiset(a) == multiset(b)
    ensures MergeAll(LINES, a) == MergeAll(LINES, b)
  {
    LinesLawful();
    MergeAllPermuted(LINES, a, b);
  }

  // ---- What a merge holds ----

  ghost predicate Covers(lines: Lines, path: string, line: nat) {
    path in lines && line in lines[path]
  }

  /** How often a line ran; one that is not there, never. */
  ghost function CountAt(lines: Lines, path: string, line: nat): nat {
    if Covers(lines, path, line) then lines[path][line] else 0
  }

  ghost function TotalAt(list: seq<Lines>, path: string, line: nat): nat {
    if list == [] then 0 else TotalAt(list[..|list| - 1], path, line) + CountAt(list[|list| - 1], path, line)
  }

  /** `sum` has the files and lines of the list and no others, each with the sum of
      its counts, or with the most that 64 bits hold where that is less. */
  ghost predicate SumOf(sum: Lines, list: seq<Lines>) {
    && (forall path :: path in sum <==> exists k :: 0 <= k < |list| && path in list[k])
    && (forall path, line :: Covers(sum, path, line) <==> exists k :: 0 <= k < |list| && Covers(list[k], path, line))
    && (forall path, line :: Covers(sum, path, line) ==>
          sum[path][line] == var total := TotalAt(list, path, line);
                             if total < 0xFFFF_FFFF_FFFF_FFFF then total else 0xFFFF_FFFF_FFFF_FFFF)
  }

  lemma AddMeans(a: Lines, b: Lines)
    ensures forall path :: path in Add(a, b) <==> path in a || path in b
    ensures forall path, line :: Covers(Add(a, b), path, line) <==> Covers(a, path, line) || Covers(b, path, line)
    ensures forall path, line :: Covers(Add(a, b), path, line) ==>
              Add(a, b)[path][line] == var total := CountAt(a, path, line) + CountAt(b, path, line);
                                       if total < 0xFFFF_FFFF_FFFF_FFFF then total else 0xFFFF_FFFF_FFFF_FFFF
  {
    forall path | path in Add(a, b) ensures Add(a, b)[path] == AddCounts(At(COUNTS, a, path), At(COUNTS, b, path)) { }
  }

  lemma TotalSnoc(list: seq<Lines>, more: Lines, path: string, line: nat)
    ensures TotalAt(list + [more], path, line) == TotalAt(list, path, line) + CountAt(more, path, line)
  {
    assert (list + [more])[..|list|] == list;
  }

  /** One more level. */
  lemma SumSnoc(sum: Lines, list: seq<Lines>, more: Lines)
    requires SumOf(sum, list)
    ensures SumOf(Add(sum, more), list + [more])
  {
    AddMeans(sum, more);
    var longer := list + [more];
    FilesSnoc(sum, list, more);
    forall path, line | Covers(Add(sum, more), path, line)
      ensures Add(sum, more)[path][line] == var total := TotalAt(longer, path, line);
                                            if total < 0xFFFF_FFFF_FFFF_FFFF then total else 0xFFFF_FFFF_FFFF_FFFF
    {
      TotalSnoc(list, more, path, line);
      if !Covers(sum, path, line) { TotalZero(list, path, line); }
    }
  }

  lemma FilesSnoc(sum: Lines, list: seq<Lines>, more: Lines)
    requires SumOf(sum, list)
    ensures forall path :: path in Add(sum, more) <==> exists k :: 0 <= k < |list + [more]| && path in (list + [more])[k]
    ensures forall path, line :: Covers(Add(sum, more), path, line) <==>
              exists k :: 0 <= k < |list + [more]| && Covers((list + [more])[k], path, line)
  {
    AddMeans(sum, more);
    var longer := list + [more];
    assert forall k :: 0 <= k < |list| ==> longer[k] == list[k];
    assert longer[|list|] == more;
  }

  lemma {:induction false} TotalZero(list: seq<Lines>, path: string, line: nat)
    requires forall k :: 0 <= k < |list| ==> !Covers(list[k], path, line)
    ensures TotalAt(list, path, line) == 0
  {
    if list != [] { TotalZero(list[..|list| - 1], path, line); }
  }

  lemma {:induction false} MergeAllMeans(list: seq<Lines>)
    ensures SumOf(MergeAll(LINES, list), list)
  {
    if list != [] {
      var n := |list| - 1;
      MergeAllMeans(list[..n]);
      SumSnoc(MergeAll(LINES, list[..n]), list[..n], list[n]);
      assert list[..n] + [list[n]] == list;
    }
  }

  // ---- Adding in place ----

  method AddCountsInto(counts: Counts, more: Counts) returns (sum: Counts)
    requires FitCounts(counts)
    ensures sum == AddCounts(counts, more)
  {
    sum := counts;
    var rest := more.Keys;
    TimesLawful();
    WithoutNone(more);
    MergeNeutral(TIMES, counts);
    while rest != {}
      invariant rest <= more.Keys && sum == Merge(TIMES, counts, Without(more, rest))
      decreases rest
    {
      var line :| line in rest;
      MergeOne(TIMES, counts, more, rest, line, sum);
      sum := sum[line := SaturatingAdd(if line in sum then sum[line] else 0, more[line])];
      rest := rest - {line};
    }
  }

  lemma FitsSoFar(lines: Lines, more: Lines, rest: set<string>)
    requires FitLines(lines) && FitLines(more)
    ensures FitLines(Merge(COUNTS, lines, Without(more, rest)))
  {
    CountsLawful();
    MergeFits(COUNTS, lines, Without(more, rest));
  }

  /** Combining one more file of `more` into the sum so far. */
  method AddFile(ghost lines: Lines, more: Lines, ghost rest: set<string>, path: string, sum: Lines)
    returns (next: Lines)
    requires FitLines(lines) && FitLines(more) && path in rest && rest <= more.Keys
    requires sum == Merge(COUNTS, lines, Without(more, rest))
    ensures next == Merge(COUNTS, lines, Without(more, rest - {path}))
  {
    CountsLawful();
    FitsSoFar(lines, more, rest);
    var file := AddCountsInto(if path in sum then sum[path] else map[], more[path]);
    assert file == COUNTS.op(At(COUNTS, sum, path), more[path]);
    MergeOne(COUNTS, lines, more, rest, path, sum);
    next := sum[path := file];
  }

  lemma AddedInto(lines: Lines, more: Lines, sum: Lines)
    requires sum == Add(lines, more)
    ensures forall path, line :: path in sum && line in sum[path] <==>
              (path in lines && line in lines[path]) || (path in more && line in more[path])
    ensures forall path, line :: path in sum && line in sum[path] ==>
              sum[path][line] == var total := (if path in lines && line in lines[path] then lines[path][line] else 0)
                                              + (if path in more && line in more[path] then more[path][line] else 0);
                                 if total < 0xFFFF_FFFF_FFFF_FFFF then total else 0xFFFF_FFFF_FFFF_FFFF
  {
    AddMeans(lines, more);
    assert forall path, line :: Covers(sum, path, line) <==> path in sum && line in sum[path];
  }

  method AddInto(lines: Lines, more: Lines) returns (sum: Lines)
    requires FitLines(lines) && FitLines(more)
    ensures sum == Add(lines, more)
    ensures forall path :: path in sum <==> path in lines || path in more
    ensures forall path, line :: path in sum && line in sum[path] <==>
              (path in lines && line in lines[path]) || (path in more && line in more[path])
    ensures forall path, line :: path in sum && line in sum[path] ==>
              sum[path][line] == var total := (if path in lines && line in lines[path] then lines[path][line] else 0)
                                              + (if path in more && line in more[path] then more[path][line] else 0);
                                 if total < 0xFFFF_FFFF_FFFF_FFFF then total else 0xFFFF_FFFF_FFFF_FFFF
  {
    AddedInto(lines, more, Add(lines, more));
    sum := lines;
    var rest := more.Keys;
    WithoutNone(more);
    assert sum == Merge(COUNTS, lines, map[]) by {
      CountsLawful();
      MergeNeutral(COUNTS, lines);
    }
    while rest != {}
      invariant rest <= more.Keys && sum == Merge(COUNTS, lines, Without(more, rest))
      decreases rest
    {
      var path :| path in rest;
      sum := AddFile(lines, more, rest, path, sum);
      rest := rest - {path};
    }
  }

  // ---- The levels of a merge ----

  ghost predicate AllFitLines(list: seq<Lines>) {
    forall k :: 0 <= k < |list| ==> FitLines(list[k])
  }

  method AddEach(list: seq<Lines>) returns (sum: Lines)
    requires AllFitLines(list)
    ensures sum == MergeAll(LINES, list) && FitLines(sum) && SumOf(sum, list)
  {
    LinesLawful();
    sum := map[];
    for k := 0 to |list|
      invariant sum == MergeAll(LINES, list[..k]) && FitLines(sum)
    {
      assert list[..k + 1][..k] == list[..k];
      assert ClosedAt(LINES, sum, list[k]);
      sum := AddInto(sum, list[k]);
    }
    assert list[..|list|] == list;
    MergeAllMeans(list);
  }

  /** The levels below end-to-end, the end-to-end groups, and the merge of all:
      what adding every level at once would give. */
  method MergeLevels(lower: seq<Lines>, groups: seq<Lines>) returns (below: Lines, e2e: Lines, merged: Lines)
    requires AllFitLines(lower) && AllFitLines(groups)
    ensures below == MergeAll(LINES, lower) && e2e == MergeAll(LINES, groups)
    ensures merged == Add(below, e2e) == MergeAll(LINES, lower + groups)
    ensures SumOf(below, lower) && SumOf(e2e, groups) && SumOf(merged, lower + groups)
  {
    e2e := AddEach(groups);
    below := AddEach(lower);
    merged := AddInto(below, e2e);
    LinesLawful();
    MergeAllConcat(LINES, lower, groups);
    MergeAllMeans(lower + groups);
  }
}
