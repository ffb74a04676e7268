/** `cargo xtask e2e-plan` and `cargo xtask e2e-group` (xtask/src/plan.rs,
    xtask/src/group.rs): how many groups the end-to-end suite runs in, and which
    scenarios each of them runs.  Seconds are exact reals. */
module Planner {
  import opened Basics
  import opened Orders
  import opened Scheduling
  import opened GreedyBounds

  type Table = map<string, real>

  /** The estimate for a scenario the table lacks. */
  const DEFAULT_SECONDS: real := 60.0

  /** The most a group's estimate may total. */
  const BUDGET_SECONDS: real := 540.0

  function Estimate(table: Table, name: string): real {
    if name in table then table[name] else DEFAULT_SECONDS
  }

  function Times(table: Table, names: seq<string>): (t: seq<real>)
    ensures |t| == |names| && forall i :: 0 <= i < |t| ==> t[i] == Estimate(table, names[i])
  {
    seq(|names|, i requires 0 <= i < |names| => Estimate(table, names[i]))
  }

  function Total(table: Table, names: seq<string>): real {
    Sum(Times(table, names))
  }

  // ---- The greedy split ----

  datatype Job = Job(seconds: real, name: string)

  /** The longest first, names breaking ties of time. */
  predicate JobLe(a: Job, b: Job) {
    a.seconds > b.seconds || (a.seconds == b.seconds && StringLe(a.name, b.name))
  }

  lemma JobOrder()
    ensures TotalOrder(JobLe)
  {
    StringOrder();
  }

  function Jobs(table: Table, names: seq<string>): (jobs: seq<Job>)
    ensures |jobs| == |names|
    ensures forall i :: 0 <= i < |jobs| ==> jobs[i] == Job(Estimate(table, names[i]), names[i])
  {
    seq(|names|, i requires 0 <= i < |names| => Job(Estimate(table, names[i]), names[i]))
  }

  function Ordered(table: Table, names: seq<string>): seq<Job> {
    Sort(JobLe, Jobs(table, names))
  }

  /** A group while it is filled: its time so far and its scenarios. */
  datatype Group = Group(seconds: real, names: seq<string>)

  function GroupLoads(groups: seq<Group>): (loads: seq<real>)
    ensures |loads| == |groups| && forall g :: 0 <= g < |loads| ==> loads[g] == groups[g].seconds
  {
    seq(|groups|, g requires 0 <= g < |groups| => groups[g].seconds)
  }

  /** One job to the lightest group. */
  function Place(groups: seq<Group>, job: Job): (r: seq<Group>)
    requires |groups| > 0
    ensures |r| == |groups|
  {
    var g := Lightest(GroupLoads(groups));
    groups[g := Group(groups[g].seconds + job.seconds, groups[g].names + [job.name])]
  }

  /** Every job of `jobs`, in order, to the group lightest so far. */
  function Filled(jobs: seq<Job>, count: nat): (r: seq<Group>)
    requires count > 0 || jobs == []
    ensures |r| == count
  {
    if jobs == [] then seq(count, _ => Group(0.0, []))
    else Place(Filled(jobs[..|jobs| - 1], count), jobs[|jobs| - 1])
  }

  function SortedNames(names: seq<string>): (r: seq<string>)
    ensures multiset(r) == multiset(names) && |r| == |names|
  {
    Sort(StringLe, names)
  }

  /** The split of some scenarios into `count` groups, each in name order. */
  function Split(scenarios: seq<string>, table: Table, count: nat): (groups: seq<seq<string>>)
    requires count > 0 || scenarios == []
    ensures |groups| == count
  {
    var filled := Filled(Ordered(table, scenarios), count);
    seq(count, g requires 0 <= g < count => SortedNames(filled[g].names))
  }

  method Assign(scenarios: seq<string>, table: Table, count: nat) returns (groups: seq<seq<string>>)
    requires count > 0 || scenarios == []
    ensures groups == Split(scenarios, table, count)
  {
    var filled := Fill(Ordered(table, scenarios), count);
    groups := seq(count, g requires 0 <= g < count => SortedNames(filled[g].names));
  }

  /** The loop of `assign`. */
  method Fill(order: seq<Job>, count: nat) returns (filling: seq<Group>)
    requires count > 0 || order == []
    ensures filling == Filled(order, count)
  {
    filling := seq(count, _ => Group(0.0, []));
    for i := 0 to |order|
      invariant |filling| == count && filling == Filled(order[..i], count)
    {
      assert order[..i + 1][..i] == order[..i];
      var lightest := Lightest(GroupLoads(filling));
      var Group(seconds, names) := filling[lightest];
      filling := filling[lightest := Group(seconds + order[i].seconds, names + [order[i].name])];
    }
    assert order[..|order|] == order;
  }

  // ---- Times and names of the split ----

  function Seconds(jobs: seq<Job>): (t: seq<real>)
    ensures |t| == |jobs| && forall i :: 0 <= i < |t| ==> t[i] == jobs[i].seconds
  {
    seq(|jobs|, i requires 0 <= i < |jobs| => jobs[i].seconds)
  }

  /** The groups' times are the greedy loads. */
  lemma {:induction false} FilledLoads(jobs: seq<Job>, count: nat)
    requires count > 0
    ensures var t := Seconds(jobs);
            forall g: nat :: g < count ==> Filled(jobs, count)[g].seconds == Load(t, Greedy(t, count), g)
    decreases |jobs|, 1
  {
    if jobs != [] {
      FilledStep(jobs, count);
      GreedyStep(Seconds(jobs), count);
    }
  }

  /** The last job goes to the group `Greedy` puts it in. */
  lemma {:induction false} FilledStep(jobs: seq<Job>, count: nat)
    requires count > 0 && |jobs| > 0
    ensures var n, t := |jobs| - 1, Seconds(jobs);
            var before := Filled(jobs[..n], count);
            && Seconds(jobs[..n]) == t[..n]
            && Lightest(GroupLoads(before)) == Greedy(t, count)[n]
            && Greedy(t, count)[..n] == Greedy(t[..n], count)
            && forall g: nat :: g < count ==> before[g].seconds == Load(t[..n], Greedy(t[..n], count), g)
    decreases |jobs|, 0
  {
    var n, t := |jobs| - 1, Seconds(jobs);
    assert Seconds(jobs[..n]) == t[..n];
    FilledLoads(jobs[..n], count);
    GreedyStep(t, count);
    assert GroupLoads(Filled(jobs[..n], count)) == Loads(t[..n], Greedy(t[..n], count), count);
  }

  lemma PlaceHolds(groups: seq<Group>, job: Job)
    requires |groups| > 0
    ensures job.name in Place(groups, job)[Lightest(GroupLoads(groups))].names
    ensures forall h, name :: 0 <= h < |groups| && name in groups[h].names ==> name in Place(groups, job)[h].names
  {
  }

  /** A job's group holds the job's name. */
  lemma {:induction false} FilledHolds(jobs: seq<Job>, count: nat, i: nat)
    requires count > 0 && i < |jobs|
    ensures jobs[i].name in Filled(jobs, count)[Greedy(Seconds(jobs), count)[i]].names
  {
    var n := |jobs| - 1;
    FilledStep(jobs, count);
    PlaceHolds(Filled(jobs[..n], count), jobs[n]);
    if i < n {
      FilledHolds(jobs[..n], count, i);
      assert Greedy(Seconds(jobs), count)[i] == Greedy(Seconds(jobs[..n]), count)[i];
    }
  }

  /** Every job's time is its name's estimate. */
  ghost predicate Estimated(table: Table, jobs: seq<Job>) {
    forall i :: 0 <= i < |jobs| ==> jobs[i].seconds == Estimate(table, jobs[i].name)
  }

  lemma TotalAppend(table: Table, names: seq<string>, name: string)
    ensures Total(table, names + [name]) == Total(table, names) + Estimate(table, name)
  {
    var t := Times(table, names + [name]);
    assert t[..|t| - 1] == Times(table, names);
  }

  lemma {:induction false} TotalConcat(table: Table, a: seq<string>, b: seq<string>)
    ensures Total(table, a + b) == Total(table, a) + Total(table, b)
  {
    if b == [] {
      assert a + b == a;
    } else {
      var n := |b| - 1;
      TotalConcat(table, a, b[..n]);
      TotalAppend(table, a + b[..n], b[n]);
      TotalAppend(table, b[..n], b[n]);
      assert a + b == (a + b[..n]) + [b[n]] && b == b[..n] + [b[n]];
    }
  }

  /** Removing one scenario takes its estimate away. */
  lemma TotalRemove(table: Table, names: seq<string>, k: nat)
    requires k < |names|
    ensures Total(table, names) == Total(table, names[..k] + names[k + 1..]) + Estimate(table, names[k])
  {
    assert names == (names[..k] + [names[k]]) + names[k + 1..];
    TotalConcat(table, names[..k] + [names[k]], names[k + 1..]);
    TotalAppend(table, names[..k], names[k]);
    TotalConcat(table, names[..k], names[k + 1..]);
  }

  lemma RemoveBag<T>(s: seq<T>, k: nat)
    requires k < |s|
    ensures multiset(s) == multiset(s[..k] + s[k + 1..]) + multiset{s[k]}
  {
    assert s == s[..k] + [s[k]] + s[k + 1..];
  }

  /** A total depends only on which scenarios there are. */
  lemma {:induction false} TotalPermutation(table: Table, a: seq<string>, b: seq<string>)
    requires multiset(a) == multiset(b)
    ensures Total(table, a) == Total(table, b)
  {
    assert |multiset(a)| == |a| && |multiset(b)| == |b|;
    if a != [] {
      var n := |a| - 1;
      assert a[n] in multiset(b);
      var k :| 0 <= k < |b| && b[k] == a[n];
      RemoveBag(b, k);
      assert a == a[..n] + [a[n]];
      Cancel(multiset(a[..n]), multiset(b[..k] + b[k + 1..]), multiset{a[n]});
      TotalPermutation(table, a[..n], b[..k] + b[k + 1..]);
      TotalRemove(table, b, k);
      TotalAppend(table, a[..n], a[n]);
    }
  }

  lemma {:induction false} FilledTotals(table: Table, jobs: seq<Job>, count: nat)
    requires (count > 0 || jobs == []) && Estimated(table, jobs)
    ensures forall g: nat :: g < count ==>
              Total(table, Filled(jobs, count)[g].names) == Filled(jobs, count)[g].seconds
  {
    if jobs != [] {
      var n := |jobs| - 1;
      FilledTotals(table, jobs[..n], count);
      var before := Filled(jobs[..n], count);
      var g := Lightest(GroupLoads(before));
      TotalAppend(table, before[g].names, jobs[n].name);
    }
  }

  lemma OrderedEstimated(table: Table, names: seq<string>)
    ensures Estimated(table, Ordered(table, names))
    ensures Descending(Seconds(Ordered(table, names)))
    ensures forall job :: job in Ordered(table, names) ==> job.name in names
  {
    var jobs := Jobs(table, names);
    var order := Ordered(table, names);
    assert Descending(Seconds(order)) by {
      JobOrder();
      SortSorts(JobLe, jobs);
    }
    forall i | 0 <= i < |order|
      ensures order[i].seconds == Estimate(table, order[i].name) && order[i].name in names
    {
      assert order[i] in multiset(order);
      assert order[i] in multiset(jobs);
    }
  }

  /** A group's total is its greedy load. */
  lemma SplitLoads(scenarios: seq<string>, table: Table, count: nat)
    requires count > 0
    ensures var t := Seconds(Ordered(table, scenarios));
            forall g: nat :: g < count ==>
              Total(table, Split(scenarios, table, count)[g]) == Load(t, Greedy(t, count), g)
  {
    var order := Ordered(table, scenarios);
    OrderedEstimated(table, scenarios);
    FilledLoads(order, count);
    FilledTotals(table, order, count);
    forall g: nat | g < count
      ensures Total(table, Split(scenarios, table, count)[g]) == Filled(order, count)[g].seconds
    {
      TotalPermutation(table, Split(scenarios, table, count)[g], Filled(order, count)[g].names);
    }
  }

  lemma NamesOfJobs(table: Table, names: seq<string>)
    ensures multiset(JobNames(Jobs(table, names))) == multiset(names)
  {
    assert JobNames(Jobs(table, names)) == names;
  }

  function JobNames(jobs: seq<Job>): (names: seq<string>)
    ensures |names| == |jobs| && forall i :: 0 <= i < |names| ==> names[i] == jobs[i].name
  {
    seq(|jobs|, i requires 0 <= i < |jobs| => jobs[i].name)
  }

  /** Renaming the elements of two permutations gives two permutations. */
  lemma {:induction false} MapBag<A, B>(f: A -> B, a: seq<A>, b: seq<A>, fa: seq<B>, fb: seq<B>)
    requires multiset(a) == multiset(b)
    requires |fa| == |a| && forall i :: 0 <= i < |a| ==> fa[i] == f(a[i])
    requires |fb| == |b| && forall i :: 0 <= i < |b| ==> fb[i] == f(b[i])
    ensures multiset(fa) == multiset(fb)
  {
    assert |multiset(a)| == |a| && |multiset(b)| == |b|;
    if a != [] {
      var n := |a| - 1;
      assert a[n] in multiset(b);
      var k :| 0 <= k < |b| && b[k] == a[n];
      RemoveBag(b, k);
      RemoveBag(fb, k);
      RemoveBag(a, n);
      RemoveBag(fa, n);
      var b', fb' := b[..k] + b[k + 1..], fb[..k] + fb[k + 1..];
      forall i | 0 <= i < |b'| ensures fb'[i] == f(b'[i]) {
        if i >= k { assert b'[i] == b[i + 1] && fb'[i] == fb[i + 1]; }
      }
      assert a[..n] + a[n + 1..] == a[..n] && fa[..n] + fa[n + 1..] == fa[..n];
      Cancel(multiset(a[..n]), multiset(b'), multiset{a[n]});
      MapBag(f, a[..n], b', fa[..n], fb');
    }
  }

  lemma Cancel<T>(a: multiset<T>, b: multiset<T>, c: multiset<T>)
    requires a + c == b + c
    ensures a == b
  {
    assert a == (a + c) - c && b == (b + c) - c;
  }

  lemma OrderedBag(table: Table, names: seq<string>)
    ensures multiset(JobNames(Ordered(table, names))) == multiset(names)
  {
    var order, jobs := Ordered(table, names), Jobs(table, names);
    MapBag((job: Job) => job.name, order, jobs, JobNames(order), JobNames(jobs));
    NamesOfJobs(table, names);
  }

  lemma OrderedTotal(table: Table, names: seq<string>)
    ensures Sum(Seconds(Ordered(table, names))) == Total(table, names)
  {
    var order := Ordered(table, names);
    OrderedEstimated(table, names);
    OrderedBag(table, names);
    assert Seconds(order) == Times(table, JobNames(order));
    TotalPermutation(table, JobNames(order), names);
  }

  // ---- Every scenario exactly once ----

  /** All the scenarios of some groups, each as often as they list it. */
  ghost function Bag(groups: seq<seq<string>>): multiset<string> {
    if groups == [] then multiset{}
    else Bag(groups[..|groups| - 1]) + multiset(groups[|groups| - 1])
  }

  lemma {:induction false} BagUpdate(groups: seq<seq<string>>, g: nat, names: seq<string>)
    requires g < |groups|
    ensures Bag(groups[g := names]) + multiset(groups[g]) == Bag(groups) + multiset(names)
  {
    var n := |groups| - 1;
    var updated := groups[g := names];
    if g == n {
      assert updated[..n] == groups[..n];
    } else {
      var before := groups[..n];
      BagUpdate(before, g, names);
      assert updated[..n] == before[g := names];
      calc {
        Bag(updated) + multiset(groups[g]);
        (Bag(before[g := names]) + multiset(groups[n])) + multiset(before[g]);
        (Bag(before[g := names]) + multiset(before[g])) + multiset(groups[n]);
        (Bag(before) + multiset(names)) + multiset(groups[n]);
        (Bag(before) + multiset(groups[n])) + multiset(names);
        Bag(groups) + multiset(names);
      }
    }
  }

  lemma BagPush(groups: seq<seq<string>>, g: nat, name: string)
    requires g < |groups|
    ensures Bag(groups[g := groups[g] + [name]]) == Bag(groups) + multiset{name}
  {
    var names := groups[g];
    var after := groups[g := names + [name]];
    BagUpdate(groups, g, names + [name]);
    calc {
      Bag(after) + multiset(names);
      Bag(groups) + multiset(names + [name]);
      (Bag(groups) + multiset{name}) + multiset(names);
    }
    Cancel(Bag(after), Bag(groups) + multiset{name}, multiset(names));
  }

  lemma {:induction false} BagSame(a: seq<seq<string>>, b: seq<seq<string>>)
    requires |a| == |b| && forall g :: 0 <= g < |a| ==> multiset(a[g]) == multiset(b[g])
    ensures Bag(a) == Bag(b)
  {
    if a != [] {
      BagSame(a[..|a| - 1], b[..|b| - 1]);
    }
  }

  lemma {:induction false} BagEmpty(groups: seq<seq<string>>)
    requires forall g :: 0 <= g < |groups| ==> groups[g] == []
    ensures Bag(groups) == multiset{}
  {
    if groups != [] { BagEmpty(groups[..|groups| - 1]); }
  }

  ghost function GroupNames(groups: seq<Group>): (r: seq<seq<string>>)
    ensures |r| == |groups| && forall g :: 0 <= g < |r| ==> r[g] == groups[g].names
  {
    seq(|groups|, g requires 0 <= g < |groups| => groups[g].names)
  }

  lemma PlaceBag(groups: seq<Group>, job: Job)
    requires |groups| > 0
    ensures Bag(GroupNames(Place(groups, job))) == Bag(GroupNames(groups)) + multiset{job.name}
  {
    var g := Lightest(GroupLoads(groups));
    BagPush(GroupNames(groups), g, job.name);
    assert GroupNames(Place(groups, job)) == GroupNames(groups)[g := groups[g].names + [job.name]];
  }

  lemma {:induction false} FilledBag(jobs: seq<Job>, count: nat)
    requires count > 0 || jobs == []
    ensures Bag(GroupNames(Filled(jobs, count))) == multiset(JobNames(jobs))
  {
    if jobs == [] {
      BagEmpty(GroupNames(Filled(jobs, count)));
    } else {
      var n := |jobs| - 1;
      var before := Filled(jobs[..n], count);
      FilledBag(jobs[..n], count);
      PlaceBag(before, jobs[n]);
      assert Filled(jobs, count) == Place(before, jobs[n]);
      assert JobNames(jobs) == JobNames(jobs[..n]) + [jobs[n].name];
      assert multiset(JobNames(jobs)) == multiset(JobNames(jobs[..n])) + multiset{jobs[n].name};
    }
  }

  /** The groups of a split together hold every scenario exactly as often as
      the suite lists it. */
  lemma ExactlyOnce(scenarios: seq<string>, table: Table, count: nat)
    requires count > 0 || scenarios == []
    ensures Bag(Split(scenarios, table, count)) == multiset(scenarios)
  {
    var order := Ordered(table, scenarios);
    FilledBag(order, count);
    OrderedBag(table, scenarios);
    BagSame(Split(scenarios, table, count), GroupNames(Filled(order, count)));
  }

  /** Two listings are split alike if and only if they list the same scenarios,
      each as often, in whatever order. */
  lemma SplitsAgree(a: seq<string>, b: seq<string>, table: Table, count: nat)
    requires count > 0
    ensures Split(a, table, count) == Split(b, table, count) <==> multiset(a) == multiset(b)
  {
    if multiset(a) == multiset(b) {
      JobOrder();
      MapBag(name => Job(Estimate(table, name), name), a, b, Jobs(table, a), Jobs(table, b));
      SortCanonical(JobLe, Jobs(table, a), Jobs(table, b));
    }
    ExactlyOnce(a, table, count);
    ExactlyOnce(b, table, count);
  }

  // ---- The split against every other split ----

  lemma {:induction false} InBag(groups: seq<seq<string>>, name: string) returns (g: nat, k: nat)
    requires name in Bag(groups)
    ensures g < |groups| && k < |groups[g]| && groups[g][k] == name
  {
    var n := |groups| - 1;
    if name in multiset(groups[n]) {
      g, k := n, (var k :| 0 <= k < |groups[n]| && groups[n][k] == name; k);
    } else {
      g, k := InBag(groups[..n], name);
    }
  }

  lemma {:induction false} BagHolds(groups: seq<seq<string>>, g: nat)
    requires g < |groups|
    ensures multiset(groups[g]) <= Bag(groups)
  {
    var n := |groups| - 1;
    if g < n { BagHolds(groups[..n], g); }
  }

  lemma BagRemove(groups: seq<seq<string>>, g: nat, k: nat)
    requires g < |groups| && k < |groups[g]|
    ensures Bag(groups) == Bag(groups[g := groups[g][..k] + groups[g][k + 1..]]) + multiset{groups[g][k]}
  {
    var names := groups[g];
    var fewer := names[..k] + names[k + 1..];
    var after := groups[g := fewer];
    BagUpdate(groups, g, fewer);
    RemoveBag(names, k);
    calc {
      Bag(groups) + multiset(fewer);
      Bag(after) + multiset(names);
      (Bag(after) + multiset{names[k]}) + multiset(fewer);
    }
    Cancel(Bag(groups), Bag(after) + multiset{names[k]}, multiset(fewer));
  }

  /** Any way to share out the jobs' names is a placement of the jobs. */
  lemma {:induction false} PlacementOf(table: Table, jobs: seq<Job>, other: seq<seq<string>>)
    returns (place: seq<nat>)
    requires Estimated(table, jobs) && Bag(other) == multiset(JobNames(jobs))
    ensures Placement(Seconds(jobs), place, |other|)
    ensures forall g: nat :: g < |other| ==> Load(Seconds(jobs), place, g) == Total(table, other[g])
  {
    if jobs == [] {
      place := [];
      forall g: nat | g < |other| ensures other[g] == [] {
        BagHolds(other, g);
        assert |multiset(other[g])| == 0;
      }
    } else {
      var n := |jobs| - 1;
      assert JobNames(jobs) == JobNames(jobs[..n]) + [jobs[n].name];
      assert jobs[n].name in Bag(other);
      var g, k := InBag(other, jobs[n].name);
      var fewer := other[g][..k] + other[g][k + 1..];
      BagRemove(other, g, k);
      Cancel(Bag(other[g := fewer]), multiset(JobNames(jobs[..n])), multiset{jobs[n].name});
      var before := PlacementOf(table, jobs[..n], other[g := fewer]);
      place := before + [g];
      PlacementStep(table, jobs, other, before, g, k);
    }
  }

  lemma PlacementStep(table: Table, jobs: seq<Job>, other: seq<seq<string>>, before: seq<nat>, g: nat, k: nat)
    requires |jobs| > 0 && Estimated(table, jobs) && |before| == |jobs| - 1
    requires g < |other| && k < |other[g]| && other[g][k] == jobs[|jobs| - 1].name
    requires var fewer := other[g := other[g][..k] + other[g][k + 1..]];
             var t := Seconds(jobs[..|jobs| - 1]);
             forall h: nat :: h < |other| ==> Load(t, before, h) == Total(table, fewer[h])
    ensures var t := Seconds(jobs);
            forall h: nat :: h < |other| ==> Load(t, before + [g], h) == Total(table, other[h])
  {
    var n := |jobs| - 1;
    var place := before + [g];
    TotalRemove(table, other[g], k);
    assert Seconds(jobs)[..n] == Seconds(jobs[..n]) && place[..n] == before;
    forall h: nat | h < |other| ensures Load(Seconds(jobs), place, h) == Total(table, other[h]) {
      var fewer := other[g := other[g][..k] + other[g][k + 1..]];
      assert Load(Seconds(jobs[..n]), before, h) == Total(table, fewer[h]);
    }
  }

  ghost predicate NonNegativeEstimates(table: Table, names: seq<string>) {
    forall name :: name in names ==> Estimate(table, name) >= 0.0
  }

  lemma OrderedNonNegative(table: Table, names: seq<string>)
    requires NonNegativeEstimates(table, names)
    ensures NonNegative(Seconds(Ordered(table, names)))
  {
    OrderedEstimated(table, names);
    var order := Ordered(table, names);
    forall i | 0 <= i < |order| ensures order[i].seconds >= 0.0 { assert order[i] in order; }
  }

  /** Graham's bound on the split: if any way at all to share the scenarios out
      into `count` groups keeps every group within `most`, the greedy split's
      groups are within (4/3 - 1/(3 count)) of it. */
  lemma SplitNearlyBest(scenarios: seq<string>, table: Table, count: nat,
                        other: seq<seq<string>>, most: real)
    requires count > 0 && NonNegativeEstimates(table, scenarios)
    requires |other| == count && Bag(other) == multiset(scenarios)
    requires forall g :: 0 <= g < count ==> Total(table, other[g]) <= most
    ensures forall g :: 0 <= g < count ==>
              Total(table, Split(scenarios, table, count)[g]) <= (4.0 / 3.0 - 1.0 / (3.0 * count as real)) * most
  {
    var order := Ordered(table, scenarios);
    var t := Seconds(order);
    OrderedEstimated(table, scenarios);
    OrderedNonNegative(table, scenarios);
    OrderedBag(table, scenarios);
    var place := PlacementOf(table, order, other);
    GrahamBound(t, count, place, most);
    SplitLoads(scenarios, table, count);
    GrahamFactor(count, most);
    forall g | 0 <= g < count
      ensures Total(table, Split(scenarios, table, count)[g]) <= Graham(count, most)
    {
      assert Load(t, Greedy(t, count), g) <= Graham(count, most);
    }
  }

  // ---- The number of groups ----

  /** Whether some seconds, slowed down, are within a capacity. */
  predicate HeldBy(seconds: real, slowdown: real, capacity: real) {
    seconds * slowdown <= capacity
  }

  /** Whether some seconds, slowed down, are within a group's budget. */
  predicate Affordable(seconds: real, slowdown: real) {
    HeldBy(seconds, slowdown, BUDGET_SECONDS)
  }

  predicate Fits(table: Table, groups: seq<seq<string>>, slowdown: real) {
    forall g :: 0 <= g < |groups| ==> Affordable(Total(table, groups[g]), slowdown)
  }

  /** A scenario that alone, slowed down, takes more than the budget. */
  ghost predicate Overlong(table: Table, name: string, slowdown: real) {
    Estimate(table, name) * slowdown > 540.0
  }

  lemma AffordableMeans(table: Table, name: string, slowdown: real)
    ensures Affordable(Estimate(table, name), slowdown) <==> !Overlong(table, name, slowdown)
  {
    WithinMeans(Estimate(table, name), slowdown);
  }

  lemma WithinMeans(seconds: real, slowdown: real)
    ensures Affordable(seconds, slowdown) <==> seconds * slowdown <= 540.0
  {
  }

  /** Groups none of which, slowed down, takes more than the budget. */
  ghost predicate WithinBudget(table: Table, groups: seq<seq<string>>, slowdown: real) {
    forall g :: 0 <= g < |groups| ==> Total(table, groups[g]) * slowdown <= 540.0
  }

  lemma FitsMeans(table: Table, groups: seq<seq<string>>, slowdown: real)
    ensures Fits(table, groups, slowdown) <==> WithinBudget(table, groups, slowdown)
  {
    if WithinBudget(table, groups, slowdown) {
      forall g | 0 <= g < |groups| ensures Affordable(Total(table, groups[g]), slowdown) {
        assert Total(table, groups[g]) * slowdown <= 540.0;
      }
    }
    if Fits(table, groups, slowdown) {
      forall g | 0 <= g < |groups| ensures Total(table, groups[g]) * slowdown <= 540.0 {
        assert Affordable(Total(table, groups[g]), slowdown);
      }
    }
  }

  lemma HeldMeans(seconds: real, slowdown: real, count: nat)
    ensures HeldBy(seconds, slowdown, Copies(count, BUDGET_SECONDS)) <==> seconds * slowdown <= count as real * 540.0
  {
    CopiesProduct(count, BUDGET_SECONDS);
  }

  function TooLong(suite: seq<string>, table: Table, slowdown: real): (over: seq<string>)
    ensures forall name :: name in over <==> name in suite && Overlong(table, name, slowdown)
  {
    var over := Select(suite, name => !Affordable(Estimate(table, name), slowdown));
    SelectHolds(suite, name => !Affordable(Estimate(table, name), slowdown));
    forall name ensures Affordable(Estimate(table, name), slowdown) <==> !Overlong(table, name, slowdown) {
      AffordableMeans(table, name, slowdown);
    }
    over
  }

  /** How many scenarios are estimated to take any time. */
  ghost function Timed(suite: seq<string>, table: Table): nat {
    Positives(Seconds(Ordered(table, suite)))
  }

  /** A number of groups that is sure to be enough. */
  ghost function Enough(suite: seq<string>, table: Table): nat {
    if Timed(suite, table) > 0 then Timed(suite, table) else 1
  }

  lemma {:induction false} PositivesAtMost(t: seq<real>)
    ensures Positives(t) <= |t|
  {
    if t != [] { PositivesAtMost(t[..|t| - 1]); }
  }

  /** The most seconds a group can be estimated at before the slowdown. */
  ghost predicate IsAllowance(bound: real, slowdown: real) {
    && bound >= 0.0
    && (forall x: real :: Affordable(x, slowdown) <==> x <= bound)
    && (forall x: real, c: nat :: HeldBy(x, slowdown, Copies(c, BUDGET_SECONDS)) <==> x <= Copies(c, bound))
  }

  lemma Allowance(slowdown: real) returns (bound: real)
    requires slowdown > 0.0
    ensures IsAllowance(bound, slowdown)
  {
    bound := BUDGET_SECONDS / slowdown;
    assert bound * slowdown == BUDGET_SECONDS;
    forall x: real, c: nat
      ensures HeldBy(x, slowdown, Copies(c, BUDGET_SECONDS)) <==> x <= Copies(c, bound)
    {
      CopiesScaled(c, bound, slowdown);
      Slower(x, Copies(c, bound), slowdown);
    }
    forall x: real ensures Affordable(x, slowdown) <==> x <= bound {
      assert Copies(1, BUDGET_SECONDS) == BUDGET_SECONDS && Copies(1, bound) == bound;
      assert HeldBy(x, slowdown, Copies(1, BUDGET_SECONDS)) <==> x <= Copies(1, bound);
    }
  }

  lemma Slower(x: real, y: real, slowdown: real)
    requires slowdown > 0.0
    ensures x <= y <==> x * slowdown <= y * slowdown
  {
    if x > y { assert (x - y) * slowdown > 0.0; } else { assert (y - x) * slowdown >= 0.0; }
  }

  lemma CopiesScaled(count: nat, x: real, slowdown: real)
    ensures Copies(count, x) * slowdown == Copies(count, x * slowdown)
  {
    CopiesProduct(count, x);
    CopiesProduct(count, x * slowdown);
    assert (count as real * x) * slowdown == count as real * (x * slowdown);
  }

  lemma FitsIsWithin(suite: seq<string>, table: Table, count: nat, slowdown: real, bound: real)
    requires count > 0 && IsAllowance(bound, slowdown)
    ensures var t := Seconds(Ordered(table, suite));
            Fits(table, Split(suite, table, count), slowdown) <==> Within(t, Greedy(t, count), count, bound)
  {
    var t := Seconds(Ordered(table, suite));
    var groups := Split(suite, table, count);
    SplitLoads(suite, table, count);
    forall g: nat | g < count
      ensures Affordable(Total(table, groups[g]), slowdown) <==> Load(t, Greedy(t, count), g) <= bound
    {
      assert Total(table, groups[g]) == Load(t, Greedy(t, count), g);
    }
  }

  lemma NoneTooLong(suite: seq<string>, table: Table, slowdown: real, bound: real)
    requires IsAllowance(bound, slowdown) && TooLong(suite, table, slowdown) == []
    ensures var t := Seconds(Ordered(table, suite));
            forall i :: 0 <= i < |t| ==> t[i] <= bound
  {
    var order := Ordered(table, suite);
    OrderedEstimated(table, suite);
    forall i | 0 <= i < |order| ensures order[i].seconds <= bound {
      assert order[i] in order;
      assert order[i].name !in TooLong(suite, table, slowdown);
      AffordableMeans(table, order[i].name, slowdown);
      assert Affordable(order[i].seconds, slowdown);
    }
  }

  /** With a group for every scenario that takes time, every group fits. */
  lemma FitsEventually(suite: seq<string>, table: Table, count: nat, slowdown: real)
    requires count > 0 && slowdown > 0.0 && TooLong(suite, table, slowdown) == []
    requires count >= Timed(suite, table)
    ensures Fits(table, Split(suite, table, count), slowdown)
  {
    var bound := Allowance(slowdown);
    OrderedEstimated(table, suite);
    NoneTooLong(suite, table, slowdown, bound);
    FitsWithRoom(Seconds(Ordered(table, suite)), count, bound);
    FitsIsWithin(suite, table, count, slowdown, bound);
  }

  /** A split that fits holds no more than its groups' budgets. */
  lemma FitsHoldsTotal(suite: seq<string>, table: Table, count: nat, slowdown: real)
    requires count > 0 && slowdown > 0.0 && Fits(table, Split(suite, table, count), slowdown)
    ensures Total(table, suite) * slowdown <= count as real * 540.0
  {
    FitsHeld(suite, table, count, slowdown);
    HeldMeans(Total(table, suite), slowdown, count);
  }

  lemma FitsHeld(suite: seq<string>, table: Table, count: nat, slowdown: real)
    requires count > 0 && slowdown > 0.0 && Fits(table, Split(suite, table, count), slowdown)
    ensures HeldBy(Total(table, suite), slowdown, Copies(count, BUDGET_SECONDS))
  {
    var bound := Allowance(slowdown);
    FitsTotalWithin(suite, table, count, slowdown, bound);
  }

  lemma FitsTotalWithin(suite: seq<string>, table: Table, count: nat, slowdown: real, bound: real)
    requires count > 0 && IsAllowance(bound, slowdown) && Fits(table, Split(suite, table, count), slowdown)
    ensures Total(table, suite) <= Copies(count, bound)
  {
    var t := Seconds(Ordered(table, suite));
    FitsIsWithin(suite, table, count, slowdown, bound);
    FitsOnlyBelowTotal(t, Greedy(t, count), count, bound);
    OrderedTotal(table, suite);
  }

  /** A suite with no scenario too long totals at most a budget for each
      scenario that takes time. */
  lemma TotalAtMost(suite: seq<string>, table: Table, slowdown: real)
    requires slowdown > 0.0 && TooLong(suite, table, slowdown) == []
    ensures Timed(suite, table) <= |suite|
    ensures HeldBy(Total(table, suite), slowdown, Copies(Enough(suite, table), BUDGET_SECONDS))
  {
    PositivesAtMost(Seconds(Ordered(table, suite)));
    FitsEventually(suite, table, Enough(suite, table), slowdown);
    FitsHeld(suite, table, Enough(suite, table), slowdown);
  }

  datatype Plan = Groups(count: nat) | TooLongFor(names: seq<string>)

  /** Whether the greedy split into `count` groups fits. */
  ghost predicate FitsIn(suite: seq<string>, table: Table, slowdown: real, count: nat) {
    count > 0 && Fits(table, Split(suite, table, count), slowdown)
  }

  ghost predicate NoneFitsBelow(suite: seq<string>, table: Table, slowdown: real, count: nat) {
    forall c: nat :: c < count ==> !FitsIn(suite, table, slowdown, c)
  }

  /** The least number of groups, from 1 up, whose greedy split fits. */
  ghost predicate LeastFitting(suite: seq<string>, table: Table, slowdown: real, count: nat) {
    FitsIn(suite, table, slowdown, count) && NoneFitsBelow(suite, table, slowdown, count)
  }

  lemma TotalOverruns(suite: seq<string>, table: Table, slowdown: real, count: nat)
    requires slowdown > 0.0 && !HeldBy(Total(table, suite), slowdown, Copies(count, BUDGET_SECONDS))
    ensures !FitsIn(suite, table, slowdown, count)
  {
    if FitsIn(suite, table, slowdown, count) {
      FitsHeld(suite, table, count, slowdown);
    }
  }

  method GroupCount(suite: seq<string>, table: Table, slowdown: real) returns (plan: Plan)
    requires slowdown > 0.0
    ensures plan.TooLongFor? <==> TooLong(suite, table, slowdown) != []
    ensures plan.TooLongFor? ==> plan.names == TooLong(suite, table, slowdown)
    ensures plan.Groups? ==> LeastFitting(suite, table, slowdown, plan.count)
    ensures plan.Groups? ==> plan.count == 1 || plan.count <= Timed(suite, table) <= |suite|
    ensures plan.TooLongFor? <==> exists name :: name in suite && Overlong(table, name, slowdown)
    ensures plan.Groups? ==>
              && WithinBudget(table, Split(suite, table, plan.count), slowdown)
              && forall c: nat :: 0 < c < plan.count ==> !WithinBudget(table, Split(suite, table, c), slowdown)
  {
    var over := TooLong(suite, table, slowdown);
    if over != [] {
      assert over[0] in over;
      return TooLongFor(over);
    }
    TotalAtMost(suite, table, slowdown);
    var count := RoundedUp(Total(table, suite), slowdown, Enough(suite, table));
    RoundedUpSkipsNone(suite, table, slowdown, count);
    count := Search(suite, table, slowdown, count);
    LeastMeans(suite, table, slowdown, count);
    plan := Groups(count);
  }

  /** The least count that fits, in products. */
  lemma LeastMeans(suite: seq<string>, table: Table, slowdown: real, count: nat)
    requires LeastFitting(suite, table, slowdown, count)
    ensures WithinBudget(table, Split(suite, table, count), slowdown)
    ensures forall c: nat :: 0 < c < count ==> !WithinBudget(table, Split(suite, table, c), slowdown)
  {
    FitsMeans(table, Split(suite, table, count), slowdown);
    forall c: nat | 0 < c < count ensures !WithinBudget(table, Split(suite, table, c), slowdown) {
      assert !FitsIn(suite, table, slowdown, c);
      FitsMeans(table, Split(suite, table, c), slowdown);
    }
  }

  /** The first loop of `group_count`: a total over the budget, rounded up,
      and at least 1. */
  method RoundedUp(total: real, slowdown: real, ghost most: nat) returns (count: nat)
    requires most > 0 && HeldBy(total, slowdown, Copies(most, BUDGET_SECONDS))
    ensures 1 <= count <= most
    ensures HeldBy(total, slowdown, Copies(count, BUDGET_SECONDS))
    ensures count > 1 ==> !HeldBy(total, slowdown, Copies(count - 1, BUDGET_SECONDS))
    ensures total * slowdown <= count as real * 540.0
    ensures count > 1 ==> total * slowdown > (count - 1) as real * 540.0
  {
    count := 1;
    var capacity := BUDGET_SECONDS;
    assert capacity == Copies(0, capacity) + capacity;
    while !HeldBy(total, slowdown, capacity)
      invariant 1 <= count <= most
      invariant capacity == Copies(count, BUDGET_SECONDS)
      invariant count > 1 ==> !HeldBy(total, slowdown, Copies(count - 1, BUDGET_SECONDS))
      decreases most - count
    {
      count := count + 1;
      capacity := capacity + BUDGET_SECONDS;
    }
    HeldMeans(total, slowdown, count);
    HeldMeans(total, slowdown, count - 1);
  }

  /** Starting at the rounded-up total skips no count whose split fits. */
  lemma RoundedUpSkipsNone(suite: seq<string>, table: Table, slowdown: real, count: nat)
    requires slowdown > 0.0 && count > 0
    requires count > 1 ==> !HeldBy(Total(table, suite), slowdown, Copies(count - 1, BUDGET_SECONDS))
    ensures NoneFitsBelow(suite, table, slowdown, count)
  {
    forall c: nat | c < count ensures !FitsIn(suite, table, slowdown, c) {
      if c > 0 {
        CopiesGrow(c, count - 1, BUDGET_SECONDS);
        TotalOverruns(suite, table, slowdown, c);
      }
    }
  }

  lemma {:induction false} CopiesGrow(a: nat, b: nat, x: real)
    requires a <= b && x >= 0.0
    ensures Copies(a, x) <= Copies(b, x)
    decreases b
  {
    if a < b { CopiesGrow(a, b - 1, x); }
  }

  lemma SearchStep(suite: seq<string>, table: Table, slowdown: real, count: nat)
    requires slowdown > 0.0 && TooLong(suite, table, slowdown) == []
    requires count > 0 && NoneFitsBelow(suite, table, slowdown, count)
    requires !Fits(table, Split(suite, table, count), slowdown)
    ensures count < Enough(suite, table) && NoneFitsBelow(suite, table, slowdown, count + 1)
  {
    if count >= Enough(suite, table) {
      FitsEventually(suite, table, count, slowdown);
    }
  }

  /** The second loop of `group_count`: one more group until every group fits. */
  method Search(suite: seq<string>, table: Table, slowdown: real, from: nat) returns (count: nat)
    requires slowdown > 0.0 && TooLong(suite, table, slowdown) == []
    requires 1 <= from <= Enough(suite, table)
    requires NoneFitsBelow(suite, table, slowdown, from)
    ensures count <= Enough(suite, table)
    ensures LeastFitting(suite, table, slowdown, count)
  {
    count := from;
    var groups := Assign(suite, table, count);
    while !Fits(table, groups, slowdown)
      invariant 1 <= count <= Enough(suite, table)
      invariant groups == Split(suite, table, count)
      invariant NoneFitsBelow(suite, table, slowdown, count)
      decreases Enough(suite, table) - count
    {
      SearchStep(suite, table, slowdown, count);
      count := count + 1;
      groups := Assign(suite, table, count);
    }
  }

  // ---- What the chosen number of groups promises ----

  /** The groups but one are more than half filled: with non-negative estimates
      the count is at most twice the slowed total over the budget, rounded up. */
  lemma CountAtMostTwiceTotal(suite: seq<string>, table: Table, slowdown: real, count: nat)
    requires slowdown > 0.0 && TooLong(suite, table, slowdown) == []
    requires NonNegativeEstimates(table, suite)
    requires LeastFitting(suite, table, slowdown, count) && count > 1
    ensures 2.0 * (Total(table, suite) * slowdown) > (count - 1) as real * 540.0
  {
    TwiceTotalOver(suite, table, slowdown, count);
    TwiceTotalMeans(suite, table, slowdown, count);
  }

  lemma TwiceTotalMeans(suite: seq<string>, table: Table, slowdown: real, count: nat)
    requires count > 1 && !HeldBy(2.0 * Total(table, suite), slowdown, Copies(count - 1, BUDGET_SECONDS))
    ensures 2.0 * (Total(table, suite) * slowdown) > (count - 1) as real * 540.0
  {
    TwiceOver(Total(table, suite), slowdown, count - 1);
  }

  lemma TwiceOver(total: real, slowdown: real, count: nat)
    requires !HeldBy(2.0 * total, slowdown, Copies(count, BUDGET_SECONDS))
    ensures 2.0 * (total * slowdown) > count as real * 540.0
  {
    assert 2.0 * total * slowdown == 2.0 * (total * slowdown);
    HeldMeans(2.0 * total, slowdown, count);
  }

  lemma TwiceTotalOver(suite: seq<string>, table: Table, slowdown: real, count: nat)
    requires slowdown > 0.0 && TooLong(suite, table, slowdown) == []
    requires NonNegativeEstimates(table, suite)
    requires LeastFitting(suite, table, slowdown, count) && count > 1
    ensures !HeldBy(2.0 * Total(table, suite), slowdown, Copies(count - 1, BUDGET_SECONDS))
  {
    var bound := Allowance(slowdown);
    NoneFitsJustBelow(suite, table, slowdown, count);
    NoneTooLong(suite, table, slowdown, bound);
    OverrunTotal(suite, table, slowdown, bound, count - 1);
    OrderedTotal(table, suite);
  }

  /** Any split that fits holds the suite within its groups' allowances. */
  lemma OtherSplitHolds(suite: seq<string>, table: Table, slowdown: real, bound: real, other: seq<seq<string>>)
    requires IsAllowance(bound, slowdown) && NonNegativeEstimates(table, suite)
    requires Bag(other) == multiset(suite) && Fits(table, other, slowdown)
    ensures var t := Seconds(Ordered(table, suite));
            Sum(t) <= Copies(|other|, bound) && forall i :: 0 <= i < |t| ==> t[i] <= bound
  {
    var order := Ordered(table, suite);
    var t := Seconds(order);
    OrderedEstimated(table, suite);
    OrderedNonNegative(table, suite);
    OrderedBag(table, suite);
    var place := PlacementOf(table, order, other);
    forall g: nat | g < |other| ensures Load(t, place, g) <= bound {
      assert Affordable(Total(table, other[g]), slowdown);
    }
    SinglesWithin(t, place, |other|, bound);
    FitsOnlyBelowTotal(t, place, |other|, bound);
  }

  lemma OverrunTotal(suite: seq<string>, table: Table, slowdown: real, bound: real, count: nat)
    requires IsAllowance(bound, slowdown) && NonNegativeEstimates(table, suite)
    requires count > 0 && !FitsIn(suite, table, slowdown, count)
    requires var t := Seconds(Ordered(table, suite)); forall i :: 0 <= i < |t| ==> t[i] <= bound
    ensures 2.0 * Sum(Seconds(Ordered(table, suite))) > Copies(count, bound)
  {
    OrderedEstimated(table, suite);
    OrderedNonNegative(table, suite);
    FitsIsWithin(suite, table, count, slowdown, bound);
    OverrunFillsHalf(Seconds(Ordered(table, suite)), count, bound);
  }

  /** The planner never uses more than twice the fewest groups that could do:
      if some split into `|other|` groups fits, the count is at most twice that. */
  lemma CountAtMostTwiceBest(suite: seq<string>, table: Table, slowdown: real, count: nat,
                             other: seq<seq<string>>)
    requires slowdown > 0.0 && NonNegativeEstimates(table, suite)
    requires LeastFitting(suite, table, slowdown, count)
    requires |other| > 0 && Bag(other) == multiset(suite) && WithinBudget(table, other, slowdown)
    ensures count <= 2 * |other|
  {
    FitsMeans(table, other, slowdown);
    if count > 1 {
      var bound := Allowance(slowdown);
      OtherSplitHolds(suite, table, slowdown, bound, other);
      NoneFitsJustBelow(suite, table, slowdown, count);
      OverrunTotal(suite, table, slowdown, bound, count - 1);
      TwiceTheGroups(Sum(Seconds(Ordered(table, suite))), bound, |other|, count - 1);
    }
  }

  lemma NoneFitsJustBelow(suite: seq<string>, table: Table, slowdown: real, count: nat)
    requires LeastFitting(suite, table, slowdown, count) && count > 1
    ensures !FitsIn(suite, table, slowdown, count - 1)
  {
  }

  lemma TwiceTheGroups(total: real, bound: real, few: nat, many: nat)
    requires bound >= 0.0 && total <= Copies(few, bound) && 2.0 * total > Copies(many, bound)
    ensures many < 2 * few
  {
    CopiesTwice(few, bound);
    if many >= 2 * few { CopiesGrow(2 * few, many, bound); }
  }

  lemma SinglesWithin(t: seq<real>, place: seq<nat>, m: nat, bound: real)
    requires NonNegative(t) && Placement(t, place, m) && Within(t, place, m, bound)
    ensures forall i :: 0 <= i < |t| ==> t[i] <= bound
  {
    forall i | 0 <= i < |t| ensures t[i] <= bound {
      LoadHoldsJob(t, place, i);
      assert Load(t, place, place[i]) <= bound;
    }
  }

  lemma {:induction false} CopiesTwice(m: nat, x: real)
    ensures Copies(2 * m, x) == 2.0 * Copies(m, x)
  {
    CopiesProduct(m, x);
    CopiesProduct(2 * m, x);
    assert (2 * m) as real * x == 2.0 * (m as real * x);
  }

  lemma CountAtMostEnough(suite: seq<string>, table: Table, slowdown: real, count: nat)
    requires slowdown > 0.0 && TooLong(suite, table, slowdown) == []
    requires LeastFitting(suite, table, slowdown, count)
    ensures count <= Enough(suite, table)
  {
    FitsEventually(suite, table, Enough(suite, table), slowdown);
    assert FitsIn(suite, table, slowdown, Enough(suite, table));
  }

  lemma TimedFillGroups(suite: seq<string>, table: Table, count: nat)
    requires 0 < count <= Timed(suite, table)
    ensures forall g :: 0 <= g < count ==> Split(suite, table, count)[g] != []
  {
    var order := Ordered(table, suite);
    OrderedEstimated(table, suite);
    NoneEmpty(Seconds(order), count);
    var filled := Filled(order, count);
    forall g | 0 <= g < count ensures Split(suite, table, count)[g] != [] {
      assert Greedy(Seconds(order), count)[g] == g;
      FilledHolds(order, count, g);
      assert filled[g].names != [];
      assert Split(suite, table, count)[g] == SortedNames(filled[g].names);
    }
  }

  /** With the planner's count no group of a suite is empty, whatever the table
      says, zero and negative estimates included. */
  lemma NoGroupEmpty(suite: seq<string>, table: Table, slowdown: real, count: nat)
    requires slowdown > 0.0 && suite != [] && TooLong(suite, table, slowdown) == []
    requires LeastFitting(suite, table, slowdown, count)
    ensures forall g :: 0 <= g < count ==> Split(suite, table, count)[g] != []
  {
    CountAtMostEnough(suite, table, slowdown, count);
    if count <= Timed(suite, table) {
      TimedFillGroups(suite, table, count);
    } else {
      SingleGroup(suite, table);
    }
  }

  lemma SingleGroup(suite: seq<string>, table: Table)
    requires suite != []
    ensures Split(suite, table, 1)[0] != []
  {
    var groups := Split(suite, table, 1);
    ExactlyOnce(suite, table, 1);
    assert Bag(groups) == Bag(groups[..0]) + multiset(groups[0]);
    assert suite[0] in multiset(suite);
  }
}
