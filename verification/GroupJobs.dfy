/** `cargo xtask e2e-group` (xtask/src/group.rs): each CI job recomputes the
    whole split from its own listing of the tests and runs one group of it. */
module GroupJobs {
  import opened Basics
  import opened Planner
  import opened Decimal

  // ---- The argument ----

  datatype Chosen = OneOf(index: nat, count: nat) | NotAGroup

  const USIZE: nat := 0x1_0000_0000_0000_0000

  /** `<index>/<count>`, an index from one to the count. */
  function ParseGroup(text: string): (group: Chosen)
    ensures group.OneOf? ==> 1 <= group.index <= group.count < USIZE
  {
    var slash := Find(text, '/');
    if slash == |text| then NotAGroup
    else
      match (Parse(text[..slash], USIZE), Parse(text[slash + 1..], USIZE))
      case (Number(index), Number(count)) => if index == 0 || index > count then NotAGroup else OneOf(index, count)
      case _ => NotAGroup
  }

  /** The argument the workflow passes is read as meant, exactly when it names a
      group there is. */
  lemma ParseGroupReads(index: nat, count: nat)
    requires count < 0x1_0000_0000_0000_0000
    ensures ParseGroup(Digits(index) + "/" + Digits(count)) ==
            if 1 <= index <= count then OneOf(index, count) else NotAGroup
  {
    var text := Digits(index) + "/" + Digits(count);
    var first := Digits(index);
    assert forall k :: 0 <= k < |first| ==> text[k] == first[k] && IsDigit(first[k]);
    assert text[|first|] == '/';
    assert Find(text, '/') == |first|;
    assert text[..|first|] == first && text[|first| + 1..] == Digits(count);
    ParseDigits(index, USIZE);
    ParseDigits(count, USIZE);
  }

  /** Two numerals with a slash between them. */
  ghost predicate Names(text: string, index: nat, count: nat) {
    exists slash :: NamesAt(text, slash, index, count)
  }

  ghost predicate NamesAt(text: string, slash: nat, index: nat, count: nat) {
    slash < |text| && text[slash] == '/' && Numeral(text[..slash], index) && Numeral(text[slash + 1..], count)
  }

  lemma NoSlash(s: string, n: nat)
    requires Numeral(s, n)
    ensures '/' !in s
  {
    var digits :| (s == digits || s == "+" + digits) && DigitsFor(digits, n);
    assert forall k :: 0 <= k < |digits| ==> IsDigit(digits[k]);
  }

  lemma OneSlash(text: string, slash: nat, index: nat, count: nat)
    requires NamesAt(text, slash, index, count)
    ensures Find(text, '/') == slash
  {
    NoSlash(text[..slash], index);
    assert forall k :: 0 <= k < slash ==> text[..slash][k] == text[k];
  }

  /** The arguments read as group `index` of `count`, and no others. */
  lemma ParseGroupExactly(text: string, index: nat, count: nat)
    ensures ParseGroup(text) == OneOf(index, count) <==>
            1 <= index <= count < 0x1_0000_0000_0000_0000 && Names(text, index, count)
  {
    var slash := Find(text, '/');
    if slash < |text| {
      ParseReads(text[..slash], USIZE, index);
      ParseReads(text[slash + 1..], USIZE, count);
      assert ParseGroup(text) == OneOf(index, count) <==> 1 <= index <= count < USIZE && NamesAt(text, slash, index, count);
    }
    if Names(text, index, count) {
      var at :| NamesAt(text, at, index, count);
      OneSlash(text, at, index, count);
    }
  }

  // ---- The job ----

  function OnlyIn(names: seq<string>, others: seq<string>): (only: seq<string>)
    ensures forall name :: name in only <==> name in names && name !in others
  {
    SelectHolds(names, name => name !in others);
    Select(names, name => name !in others)
  }

  /** The names are told in the order listed. */
  lemma OnlyInOrder(a: seq<string>, b: seq<string>, name: string, others: seq<string>)
    ensures OnlyIn(a + b, others) == OnlyIn(a, others) + OnlyIn(b, others)
    ensures OnlyIn([name], others) == if name in others then [] else [name]
  {
    SelectConcat(a, b, (name: string) => name !in others);
    SelectOne(name, (name: string) => name !in others);
  }

  datatype Outcome =
    | Runs(names: seq<string>)
    | Differs(onlyListed: seq<string>, onlyPlanned: seq<string>)
    | HoldsNone

  /** What the job for group `index` of `count` does, with the tests it lists
      and the suite the planner read. */
  function Job(listed: seq<string>, planned: seq<string>, table: Table, index: nat, count: nat): Outcome
    requires 1 <= index <= count
  {
    var onlyListed, onlyPlanned := OnlyIn(listed, planned), OnlyIn(planned, listed);
    if onlyListed != [] || onlyPlanned != [] then Differs(onlyListed, onlyPlanned)
    else
      var group := Split(listed, table, count)[index - 1];
      if group == [] then HoldsNone else Runs(group)
  }

  method RunGroup(listed: seq<string>, planned: seq<string>, table: Table, index: nat, count: nat)
    returns (outcome: Outcome)
    requires 1 <= index <= count
    ensures outcome == Job(listed, planned, table, index, count)
    ensures outcome.Differs? <==> exists name :: name in listed <==> name !in planned
    ensures outcome.Differs? ==>
              && (forall name :: name in outcome.onlyListed <==> name in listed && name !in planned)
              && (forall name :: name in outcome.onlyPlanned <==> name in planned && name !in listed)
    ensures outcome.Runs? ==> outcome.names == Split(listed, table, count)[index - 1] && outcome.names != []
    ensures outcome.HoldsNone? ==> Split(listed, table, count)[index - 1] == []
  {
    var onlyListed := OnlyIn(listed, planned);
    var onlyPlanned := OnlyIn(planned, listed);
    if onlyListed != [] || onlyPlanned != [] {
      if onlyListed != [] {
        assert onlyListed[0] in onlyListed;
      } else {
        assert onlyPlanned[0] in onlyPlanned;
      }
      return Differs(onlyListed, onlyPlanned);
    }
    assert forall name :: name !in onlyListed && name !in onlyPlanned;
    var groups := Assign(listed, table, count);
    outcome := if groups[index - 1] == [] then HoldsNone else Runs(groups[index - 1]);
  }

  lemma {:induction false} DistinctCount(names: seq<string>, name: string)
    requires Distinct(names)
    ensures multiset(names)[name] == if name in names then 1 else 0
  {
    if names != [] {
      assert names == [names[0]] + names[1..];
      DistinctCount(names[1..], name);
    }
  }

  /** Without repeats, the same names in any order are the same bag. */
  lemma SameNamesSameBag(a: seq<string>, b: seq<string>)
    requires Distinct(a) && Distinct(b) && forall name :: name in a <==> name in b
    ensures multiset(a) == multiset(b)
  {
    forall name ensures multiset(a)[name] == multiset(b)[name] {
      DistinctCount(a, name);
      DistinctCount(b, name);
    }
  }

  /** A job that finds no difference splits the suite as the planner does,
      whatever order it lists the tests in. */
  lemma JobSplitsAsPlanned(listed: seq<string>, planned: seq<string>, table: Table, index: nat, count: nat)
    requires 1 <= index <= count && Distinct(listed) && Distinct(planned)
    requires !Job(listed, planned, table, index, count).Differs?
    ensures Split(listed, table, count) == Split(planned, table, count)
  {
    assert OnlyIn(listed, planned) == [] && OnlyIn(planned, listed) == [];
    forall name ensures name in listed <==> name in planned {
      assert name !in OnlyIn(listed, planned) && name !in OnlyIn(planned, listed);
    }
    SameNamesSameBag(listed, planned);
    SplitsAgree(listed, planned, table, count);
  }

  lemma JobRunsPlannedGroup(listed: seq<string>, planned: seq<string>, table: Table, index: nat, count: nat)
    requires 1 <= index <= count && Distinct(planned) && Agrees(listed, planned, table, index, count)
    requires Split(planned, table, count)[index - 1] != []
    ensures Job(listed, planned, table, index, count) == Runs(Split(planned, table, count)[index - 1])
  {
    JobSplitsAsPlanned(listed, planned, table, index, count);
  }

  /** A listing without repeats in which a job found no difference. */
  ghost predicate Agrees(listed: seq<string>, planned: seq<string>, table: Table, index: nat, count: nat)
    requires 1 <= index <= count
  {
    Distinct(listed) && !Job(listed, planned, table, index, count).Differs?
  }

  /** What each of some jobs runs, when it runs anything. */
  ghost function NamesRun(outcomes: seq<Outcome>): (r: seq<seq<string>>)
    ensures |r| == |outcomes|
  {
    seq(|outcomes|, i requires 0 <= i < |outcomes| => if outcomes[i].Runs? then outcomes[i].names else [])
  }

  /** `outcomes` are those of jobs 1 to `|outcomes|`, each with a listing of its
      own. */
  ghost predicate OutcomesOf(outcomes: seq<Outcome>, listings: seq<seq<string>>, planned: seq<string>, table: Table) {
    && |outcomes| == |listings|
    && forall i :: 0 <= i < |listings| ==>
         && Agrees(listings[i], planned, table, i + 1, |listings|)
         && outcomes[i] == Job(listings[i], planned, table, i + 1, |listings|)
  }

  /** Jobs that found no difference run the groups of the planner's split. */
  lemma JobsRunGroups(outcomes: seq<Outcome>, listings: seq<seq<string>>, planned: seq<string>, table: Table,
                      groups: seq<seq<string>>)
    requires Distinct(planned) && |listings| > 0 && groups == Split(planned, table, |listings|)
    requires OutcomesOf(outcomes, listings, planned, table)
    requires forall g :: 0 <= g < |groups| ==> groups[g] != []
    ensures forall i :: 0 <= i < |outcomes| ==> outcomes[i] == Runs(groups[i])
  {
    forall i | 0 <= i < |outcomes| ensures outcomes[i] == Runs(groups[i]) {
      assert Agrees(listings[i], planned, table, i + 1, |listings|);
      JobRunsPlannedGroup(listings[i], planned, table, i + 1, |listings|);
    }
  }

  /** The jobs of one plan, each with a listing of its own that it found no
      difference in, together run every scenario of the suite exactly once, and
      none of them is left without one. */
  lemma JobsRunEachScenarioOnce(outcomes: seq<Outcome>, listings: seq<seq<string>>, planned: seq<string>,
                                table: Table, slowdown: real)
    requires slowdown > 0.0 && Distinct(planned) && planned != []
    requires TooLong(planned, table, slowdown) == [] && LeastFitting(planned, table, slowdown, |listings|)
    requires OutcomesOf(outcomes, listings, planned, table)
    ensures forall i :: 0 <= i < |outcomes| ==> outcomes[i].Runs?
    ensures Bag(NamesRun(outcomes)) == multiset(planned)
  {
    var groups := Split(planned, table, |listings|);
    NoGroupEmpty(planned, table, slowdown, |listings|);
    JobsRunGroups(outcomes, listings, planned, table, groups);
    NamesOfRuns(outcomes, groups);
    ExactlyOnce(planned, table, |listings|);
  }

  lemma NamesOfRuns(outcomes: seq<Outcome>, groups: seq<seq<string>>)
    requires |outcomes| == |groups| && forall i :: 0 <= i < |outcomes| ==> outcomes[i] == Runs(groups[i])
    ensures NamesRun(outcomes) == groups
  {
  }

  lemma NothingOnlyIn(names: seq<string>, others: seq<string>)
    requires forall name :: name in names ==> name in others
    ensures OnlyIn(names, others) == []
  {
    SelectHolds(names, (name: string) => name !in others);
  }

  /** The difference is looked for by name alone, so a listing that repeats a
      test passes it and is split otherwise: `Distinct` is needed. */
  lemma RepeatedListingPasses(table: Table)
    ensures var listed, planned := ["a", "a"], ["a"];
            && !Job(listed, planned, table, 1, 1).Differs?
            && Split(listed, table, 1) != Split(planned, table, 1)
  {
    var listed, planned := ["a", "a"], ["a"];
    NothingOnlyIn(listed, planned);
    NothingOnlyIn(planned, listed);
    assert multiset(listed)["a"] == 2 && multiset(planned)["a"] == 1;
    SplitsAgree(listed, planned, table, 1);
  }
}
