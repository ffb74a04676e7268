/** What a split is, said without the loop that makes it (xtask/src/plan.rs). */
module SplitMeaning {
  import opened Basics
  import opened Orders
  import opened Scheduling
  import opened GreedyBounds
  import opened Planner

  // ---- Names in order ----

  /** `a` comes first at the first place where the two differ, or is the start of `b`. */
  ghost predicate NotAfter(a: string, b: string) {
    a <= b || exists k: nat :: DiffersAt(a, b, k)
  }

  ghost predicate DiffersAt(a: string, b: string, k: nat) {
    k < |a| && k < |b| && a[..k] == b[..k] && a[k] < b[k]
  }

  lemma DiffersLater(a: string, b: string, k: nat)
    requires a != [] && b != [] && a[0] == b[0]
    ensures DiffersAt(a[1..], b[1..], k) <==> DiffersAt(a, b, k + 1)
  {
    if k < |a| - 1 && k < |b| - 1 {
      assert a[..k + 1] == [a[0]] + a[1..][..k] && b[..k + 1] == [b[0]] + b[1..][..k];
      if a[..k + 1] == b[..k + 1] { assert a[..k + 1][1..] == a[1..][..k] && b[..k + 1][1..] == b[1..][..k]; }
    }
  }

  lemma StartsNoLater(a: string, b: string)
    requires a != [] && b != []
    ensures NotAfter(a, b) ==> a[0] <= b[0]
  {
    if k: nat :| DiffersAt(a, b, k) && k > 0 { assert a[..k][0] == b[..k][0]; }
  }

  lemma {:induction false} StringLeMeans(a: string, b: string)
    ensures StringLe(a, b) <==> NotAfter(a, b)
  {
    if a != [] && b != [] {
      if a[0] < b[0] {
        assert DiffersAt(a, b, 0);
      } else if a[0] == b[0] {
        StringLeMeans(a[1..], b[1..]);
        assert a == [a[0]] + a[1..] && b == [b[0]] + b[1..];
        if k: nat :| DiffersAt(a[1..], b[1..], k) { DiffersLater(a, b, k); }
        if k: nat :| DiffersAt(a, b, k) { DiffersLater(a, b, k - 1); }
      } else {
        StartsNoLater(a, b);
      }
    }
  }

  ghost predicate InNameOrder(names: seq<string>) {
    forall i, j :: 0 <= i < j < |names| ==> NotAfter(names[i], names[j])
  }

  lemma SortedMeans(names: seq<string>)
    requires Sorted(StringLe, names)
    ensures InNameOrder(names)
  {
    forall i, j | 0 <= i < j < |names| ensures NotAfter(names[i], names[j]) {
      StringLeMeans(names[i], names[j]);
    }
  }

  // ---- Totals ----

  /** A total is the sum of the times of the table, a minute for a scenario that is
      not in it. */
  lemma TotalMeans(table: Table, names: seq<string>, name: string)
    ensures Total(table, []) == 0.0
    ensures Total(table, names + [name]) == Total(table, names) + if name in table then table[name] else 60.0
  {
    TotalAppend(table, names, name);
  }

  /** The scenarios that are too long are named in the order of the suite. */
  lemma TooLongInOrder(a: seq<string>, b: seq<string>, name: string, table: Table, slowdown: real)
    ensures TooLong(a + b, table, slowdown) == TooLong(a, table, slowdown) + TooLong(b, table, slowdown)
    ensures TooLong([name], table, slowdown) == if Estimate(table, name) * slowdown > 540.0 then [name] else []
  {
    var over := (name: string) => !Affordable(Estimate(table, name), slowdown);
    SelectConcat(a, b, over);
    SelectOne(name, over);
    AffordableMeans(table, name, slowdown);
  }

  // ---- The split ----

  /** The scenarios that `place` puts in group `g`, in order. */
  ghost function Placed(order: seq<string>, place: seq<nat>, g: nat): seq<string>
    requires |order| == |place|
  {
    if order == [] then []
    else
      var n := |order| - 1;
      Placed(order[..n], place[..n], g) + if place[n] == g then [order[n]] else []
  }

  ghost predicate LongestFirst(table: Table, order: seq<string>) {
    forall i, j :: 0 <= i < j < |order| ==>
      || Estimate(table, order[i]) > Estimate(table, order[j])
      || (Estimate(table, order[i]) == Estimate(table, order[j]) && NotAfter(order[i], order[j]))
  }

  /** Scenario `i` goes to the group that totals least by then, the first of several. */
  ghost predicate ToLightest(table: Table, order: seq<string>, place: seq<nat>, count: nat, i: nat)
    requires |order| == |place| && i < |order|
  {
    && place[i] < count
    && forall h: nat :: h < count ==>
         var mine := Total(table, Placed(order[..i], place[..i], place[i]));
         var its := Total(table, Placed(order[..i], place[..i], h));
         mine <= its && (h < place[i] ==> mine < its)
  }

  ghost predicate IsSplit(scenarios: seq<string>, table: Table, count: nat,
                          order: seq<string>, place: seq<nat>, groups: seq<seq<string>>) {
    && multiset(order) == multiset(scenarios) && LongestFirst(table, order)
    && |place| == |order| && (forall i: nat :: i < |order| ==> ToLightest(table, order, place, count, i))
    && |groups| == count
    && (forall g :: 0 <= g < count ==>
          multiset(groups[g]) == multiset(Placed(order, place, g)) && InNameOrder(groups[g]))
  }

  lemma OrderedLongestFirst(table: Table, names: seq<string>)
    ensures LongestFirst(table, JobNames(Ordered(table, names)))
  {
    var jobs := Ordered(table, names);
    OrderedEstimated(table, names);
    JobOrder();
    SortSorts(JobLe, Jobs(table, names));
    var order := JobNames(jobs);
    forall i, j | 0 <= i < j < |order|
      ensures || Estimate(table, order[i]) > Estimate(table, order[j])
              || (Estimate(table, order[i]) == Estimate(table, order[j]) && NotAfter(order[i], order[j]))
    {
      assert JobLe(jobs[i], jobs[j]);
      StringLeMeans(order[i], order[j]);
    }
  }

  lemma {:induction false} FilledPlaced(jobs: seq<Job>, count: nat)
    requires count > 0
    ensures forall g: nat :: g < count ==>
              Filled(jobs, count)[g].names == Placed(JobNames(jobs), Greedy(Seconds(jobs), count), g)
  {
    if jobs != [] {
      var n := |jobs| - 1;
      FilledPlaced(jobs[..n], count);
      FilledStep(jobs, count);
      assert JobNames(jobs)[..n] == JobNames(jobs[..n]);
    }
  }

  /** The last job goes to the lightest group. */
  lemma LastToLightest(table: Table, jobs: seq<Job>, count: nat)
    requires count > 0 && jobs != [] && Estimated(table, jobs)
    ensures ToLightest(table, JobNames(jobs), Greedy(Seconds(jobs), count), count, |jobs| - 1)
  {
    var n := |jobs| - 1;
    var before := Filled(jobs[..n], count);
    FilledStep(jobs, count);
    FilledTotals(table, jobs[..n], count);
    FilledPlaced(jobs[..n], count);
    assert JobNames(jobs)[..n] == JobNames(jobs[..n]);
    var loads := GroupLoads(before);
    assert IsLightest(loads, Lightest(loads));
    var place := Greedy(Seconds(jobs), count);
    forall h: nat | h < count
      ensures Total(table, Placed(JobNames(jobs)[..n], place[..n], h)) == loads[h]
    {
      assert Total(table, before[h].names) == before[h].seconds;
    }
  }

  lemma {:induction false} AllToLightest(table: Table, jobs: seq<Job>, count: nat, i: nat)
    requires count > 0 && i < |jobs| && Estimated(table, jobs)
    ensures ToLightest(table, JobNames(jobs), Greedy(Seconds(jobs), count), count, i)
  {
    var n := |jobs| - 1;
    if i == n {
      LastToLightest(table, jobs, count);
    } else {
      AllToLightest(table, jobs[..n], count, i);
      FilledStep(jobs, count);
      var order, place := JobNames(jobs), Greedy(Seconds(jobs), count);
      assert order[..n] == JobNames(jobs[..n]);
      assert order[..n][..i] == order[..i] && place[..n][..i] == place[..i];
    }
  }

  /** A split places the scenarios, longest first and then in name order, each in
      the group that totals least by then, and names each group's in order. */
  lemma SplitMeans(scenarios: seq<string>, table: Table, count: nat) returns (order: seq<string>, place: seq<nat>)
    requires count > 0
    ensures IsSplit(scenarios, table, count, order, place, Split(scenarios, table, count))
  {
    var jobs := Ordered(table, scenarios);
    order, place := JobNames(jobs), Greedy(Seconds(jobs), count);
    OrderedBag(table, scenarios);
    OrderedLongestFirst(table, scenarios);
    OrderedEstimated(table, scenarios);
    forall i: nat | i < |order| ensures ToLightest(table, order, place, count, i) {
      AllToLightest(table, jobs, count, i);
    }
    FilledPlaced(jobs, count);
    StringOrder();
    var groups, filled := Split(scenarios, table, count), Filled(jobs, count);
    forall g | 0 <= g < count ensures multiset(groups[g]) == multiset(Placed(order, place, g)) && InNameOrder(groups[g]) {
      SortSorts(StringLe, filled[g].names);
      SortedMeans(groups[g]);
    }
  }
}
