/** How well longest-first greedy does: Graham's bound of 4/3 - 1/(3m) against
    the best possible split, when it is sure to fit a budget, and when no group
    stays empty. */
module GreedyBounds {
  import opened Scheduling

  /** The step of `Greedy` that places the last job. */
  lemma GreedyStep(t: seq<real>, m: nat)
    requires m > 0 && |t| > 0
    ensures var n := |t| - 1;
            var place := Greedy(t[..n], m);
            var g := Lightest(Loads(t[..n], place, m));
            && Greedy(t, m)[..n] == place
            && Greedy(t, m)[n] == g
            && (forall h: nat :: h < m ==> Load(t[..n], place, g) <= Load(t[..n], place, h))
            && (forall h: nat :: h < m ==> Load(t, Greedy(t, m), h)
                                           == Load(t[..n], place, h) + if h == g then t[n] else 0.0)
  {
    var n := |t| - 1;
    var place := Greedy(t[..n], m);
    var loads := Loads(t[..n], place, m);
    var g := Lightest(loads);
    assert Greedy(t, m) == place + [g];
    assert Greedy(t, m)[..n] == place;
    forall h: nat | h < m ensures Load(t[..n], place, g) <= Load(t[..n], place, h) {
      assert loads[g] <= loads[h];
    }
  }

  /** A placed job keeps a bound that its group has room for it under. */
  lemma GreedyStepWithin(t: seq<real>, m: nat, bound: real)
    requires m > 0 && |t| > 0
    requires Within(t[..|t| - 1], Greedy(t[..|t| - 1], m), m, bound)
    requires var n := |t| - 1;
             var place := Greedy(t[..n], m);
             Load(t[..n], place, Lightest(Loads(t[..n], place, m))) + t[n] <= bound
    ensures Within(t, Greedy(t, m), m, bound)
  {
    var n := |t| - 1;
    GreedyStep(t, m);
    forall g: nat | g < m ensures Load(t, Greedy(t, m), g) <= bound {
      assert Load(t[..n], Greedy(t[..n], m), g) <= bound;
    }
  }

  /** Jobs longer than a third of `most` leave the lightest group room for the
      next, when any placement keeps within `most`.  Give a job alone in its
      greedy group the weight 1 and a paired one a half: greedy's groups weigh
      1 each, so the jobs before the last weigh `m`, while the other
      placement's groups weigh at most 1 each, the last job included. */
  lemma LongJobRoom(t: seq<real>, m: nat, place: seq<nat>, other: seq<nat>, most: real, least: real)
    requires m > 0 && |t| > 0 && Descending(t) && NonNegative(t)
    requires 3.0 * t[|t| - 1] > most
    requires Placement(t, other, m) && Within(t, other, m, most)
    requires Placement(t[..|t| - 1], place, m) && Within(t[..|t| - 1], place, m, most)
    requires var before := t[..|t| - 1]; forall g: nat :: g < m ==> Load(before, place, g) >= least
    ensures least + t[|t| - 1] <= most
  {
    var n := |t| - 1;
    if least + t[n] > most {
      LoadHoldsJob(t, other, n);
      assert Load(t, other, other[n]) <= most;
      var weight := seq(n + 1, i requires 0 <= i <= n =>
        if i < n && Count(place, place[i]) == 1 then 1.0 else 0.5);
      GreedyWeights(t[..n], m, place, most, t[n], weight[..n]);
      OtherWeights(t, m, place, other, most, least, weight);
      LoadsSum(weight[..n], place, m);
      LoadsSum(weight, other, m);
      TogetherAtMost(weight, other, m, 1.0);
      TogetherAtLeast(weight[..n], place, m, 1.0);
      assert false;
    }
  }

  lemma LongJobsFit(t: seq<real>, m: nat, other: seq<nat>, most: real)
    requires m > 0 && |t| > 0 && Descending(t) && NonNegative(t)
    requires 3.0 * t[|t| - 1] > most
    requires Placement(t, other, m) && Within(t, other, m, most)
    requires Within(t[..|t| - 1], Greedy(t[..|t| - 1], m), m, most)
    ensures Within(t, Greedy(t, m), m, most)
  {
    var n := |t| - 1;
    var place := Greedy(t[..n], m);
    GreedyStep(t, m);
    LongJobRoom(t, m, place, other, most, Load(t[..n], place, Lightest(Loads(t[..n], place, m))));
    GreedyStepWithin(t, m, most);
  }

  /** Every greedy group holds one or two long jobs, so weighs 1. */
  lemma GreedyWeights(t: seq<real>, m: nat, place: seq<nat>, most: real, last: real, weight: seq<real>)
    requires Placement(t, place, m) && Within(t, place, m, most)
    requires 0.0 <= last <= most && 3.0 * last > most
    requires forall i :: 0 <= i < |t| ==> t[i] >= last
    requires forall g: nat :: g < m ==> Load(t, place, g) + last > most
    requires |weight| == |t|
    requires forall i :: 0 <= i < |t| ==> weight[i] == if Count(place, place[i]) == 1 then 1.0 else 0.5
    ensures forall g: nat :: g < m ==> Load(weight, place, g) >= 1.0
  {
    forall g: nat | g < m ensures Load(weight, place, g) >= 1.0 {
      assert Load(t, place, g) <= most && Load(t, place, g) + last > most;
      LoadAbove(t, place, g, most / 3.0);
      if Count(place, g) == 0 { CountZero(t, place, g); }
      LoadUniform(weight, place, g, if Count(place, g) == 1 then 1.0 else 0.5);
    }
  }

  /** Another placement's group holds at most two long jobs, and a job alone in
      its greedy group leaves no room beside it, so the group weighs at most 1. */
  lemma OtherWeights(t: seq<real>, m: nat, place: seq<nat>, other: seq<nat>, most: real,
                     least: real, weight: seq<real>)
    requires |t| > 0 && Descending(t) && NonNegative(t) && 3.0 * t[|t| - 1] > most
    requires Placement(t[..|t| - 1], place, m)
    requires Placement(t, other, m) && Within(t, other, m, most)
    requires var before := t[..|t| - 1]; forall g: nat :: g < m ==> Load(before, place, g) >= least
    requires least + t[|t| - 1] > most
    requires |weight| == |t|
    requires forall i :: 0 <= i < |t| ==>
               weight[i] == if i < |t| - 1 && Count(place, place[i]) == 1 then 1.0 else 0.5
    ensures Within(weight, other, m, 1.0)
  {
    var n := |t| - 1;
    forall g: nat | g < m ensures Load(weight, other, g) <= 1.0 {
      assert Load(t, other, g) <= most;
      LoadHoldsJob(t, other, n);
      assert Load(t, other, other[n]) <= most;
      var third := most / 3.0;
      LoadAbove(t, other, g, third);
      assert Count(other, g) <= 2 by {
        assert Count(other, g) >= 3 ==> third * Count(other, g) as real >= third * 3.0;
      }
      if Count(other, g) == 2 {
        forall i | 0 <= i < |t| && other[i] == g ensures weight[i] == 0.5 {
          if i < n && Count(place, place[i]) == 1 {
            LoadOfLoneJob(t[..n], place, i);
            assert t[i] >= least;
            var j := Companion(other, i);
            assert t[j] >= t[n];
            LoadHoldsPair(t, other, if i < j then i else j, if i < j then j else i);
            assert false;
          }
        }
        LoadUniform(weight, other, g, 0.5);
      } else if Count(other, g) == 1 {
        var i := CountWitness(other, g);
        LoadOfLoneJob(weight, other, i);
      } else {
        CountZero(weight, other, g);
      }
    }
  }

  /** `most` scaled by 4/3 - 1/(3m). */
  ghost function Graham(m: nat, most: real): (bound: real)
    requires m > 0
  {
    (4.0 * m as real - 1.0) / (3.0 * m as real) * most
  }

  lemma GrahamFactor(m: nat, most: real)
    requires m > 0
    ensures Graham(m, most) == (4.0 / 3.0 - 1.0 / (3.0 * m as real)) * most
  {
    var k := m as real;
    assert (4.0 / 3.0) * (3.0 * k) == 4.0 * k;
    assert (1.0 / (3.0 * k)) * (3.0 * k) == 1.0;
    var f := (4.0 * k - 1.0) / (3.0 * k);
    assert f * (3.0 * k) == 4.0 * k - 1.0;
    assert (f - (4.0 / 3.0 - 1.0 / (3.0 * k))) * (3.0 * k) == 0.0;
  }

  lemma GrahamAbove(m: nat, most: real)
    requires m > 0 && most >= 0.0
    ensures most <= Graham(m, most)
    ensures 3.0 * m as real * Graham(m, most) == (4.0 * m as real - 1.0) * most
  {
    var k := m as real;
    var f := (4.0 * k - 1.0) / (3.0 * k);
    assert 3.0 * k * f == 4.0 * k - 1.0;
    assert f >= 1.0;
  }

  /** A short job is no trouble: the lightest group is at most the average. */
  lemma ShortJobFits(t: seq<real>, m: nat, other: seq<nat>, most: real)
    requires m > 0 && |t| > 0 && NonNegative(t)
    requires 3.0 * t[|t| - 1] <= most
    requires Placement(t, other, m) && Within(t, other, m, most)
    ensures var n := |t| - 1;
            var place := Greedy(t[..n], m);
            Load(t[..n], place, Lightest(Loads(t[..n], place, m))) + t[n] <= Graham(m, most)
  {
    var n := |t| - 1;
    var before := t[..n];
    var place := Greedy(before, m);
    var least := Load(before, place, Lightest(Loads(before, place, m)));
    LightestBelowAverage(before, m);
    LoadsSum(t, other, m);
    TogetherAtMost(t, other, m, most);
    ShortJobArithmetic(m, least, t[n], most);
  }

  lemma Scale(k: real, a: real, b: real)
    requires k >= 0.0 && a <= b
    ensures k * a <= k * b
  {
  }

  lemma ShortJobArithmetic(m: nat, least: real, p: real, most: real)
    requires m > 0 && 0.0 <= 3.0 * p <= most && Copies(m, least) + p <= Copies(m, most)
    ensures least + p <= Graham(m, most)
  {
    var k := m as real;
    CopiesProduct(m, least);
    CopiesProduct(m, most);
    GrahamAbove(m, most);
    calc {
      3.0 * k * (least + p);
    ==
      3.0 * (k * least + p) + (k - 1.0) * (3.0 * p);
    <=
      3.0 * (k * most) + (k - 1.0) * (3.0 * p);
    <=  { Scale(k - 1.0, 3.0 * p, most); }
      3.0 * (k * most) + (k - 1.0) * most;
    ==
      (4.0 * k - 1.0) * most;
    ==
      3.0 * k * Graham(m, most);
    }
  }

  /** Graham's bound.  Whatever placement of the same jobs into `m` groups keeps
      within `most`, longest-first greedy keeps within 4/3 - 1/(3m) of `most`,
      and within `most` itself while the jobs are longer than a third of it. */
  lemma {:induction false} GrahamBound(t: seq<real>, m: nat, other: seq<nat>, most: real)
    requires m > 0 && Descending(t) && NonNegative(t)
    requires Placement(t, other, m) && Within(t, other, m, most)
    ensures Within(t, Greedy(t, m), m, Graham(m, most))
    ensures forall g: nat :: g < m ==> Load(t, Greedy(t, m), g) <= (4.0 / 3.0 - 1.0 / (3.0 * m as real)) * most
    ensures t == [] || 3.0 * t[|t| - 1] > most ==> Within(t, Greedy(t, m), m, most)
  {
    LoadNonNegative(t, other, 0);
    assert Load(t, other, 0) <= most;
    GrahamAbove(m, most);
    GrahamFactor(m, most);
    var bound := Graham(m, most);
    if t != [] {
      var n := |t| - 1;
      WithinPrefix(t, other, m, most);
      GrahamBound(t[..n], m, other[..n], most);
      if 3.0 * t[n] > most {
        LongJobsFit(t, m, other, most);
      } else {
        ShortJobFits(t, m, other, most);
        GreedyStepWithin(t, m, bound);
      }
    }
  }

  lemma LoadsOfTwo(t: seq<real>, place: seq<nat>, g: nat)
    requires |t| == 2 && |place| == 2
    ensures Load(t, place, g) == (if place[0] == g then t[0] else 0.0) + if place[1] == g then t[1] else 0.0
  {
    assert t[..1][..0] == [] && place[..1][..0] == [];
    assert Load(t[..1], place[..1], g) == if place[0] == g then t[0] else 0.0;
  }

  lemma LoadOfOne(t: seq<real>, place: seq<nat>, g: nat)
    requires |t| == 1 && |place| == 1
    ensures Load(t, place, g) == if place[0] == g then t[0] else 0.0
  {
    assert t[..0] == [] && place[..0] == [];
  }

  /** Of two jobs, the second does not join a first of positive time. */
  lemma FirstOfTwo(t: seq<real>, place: seq<nat>)
    requires |t| == 2 && t[0] > 0.0 && place == Greedy(t, 2)
    ensures place[0] != place[1]
  {
    GreedyStep(t, 2);
    var first := Greedy(t[..1], 2);
    assert first[0] == place[..1][0];
    LoadOfOne(t[..1], first, place[1]);
    LoadOfOne(t[..1], first, 1 - place[0]);
  }

  /** The bound needs times that are not negative: with 1 and -1 in two groups,
      both jobs in one group leave nothing over, and greedy leaves 1. */
  lemma NegativeTimesBreakBound()
    ensures var t, other := [1.0, -1.0], [0, 0];
            && Descending(t) && Placement(t, other, 2) && Within(t, other, 2, 0.0)
            && !Within(t, Greedy(t, 2), 2, Graham(2, 0.0))
  {
    var t, other: seq<nat> := [1.0, -1.0], [0, 0];
    FirstOfTwo(t, Greedy(t, 2));
    LoadsOfTwo(t, Greedy(t, 2), Greedy(t, 2)[0]);
    LoadsOfTwo(t, other, 0);
    LoadsOfTwo(t, other, 1);
    forall g: nat | g < 2 ensures Load(t, other, g) <= 0.0 { }
  }

  // ---- Fitting a budget ----

  ghost function Positives(t: seq<real>): nat {
    if t == [] then 0
    else Positives(t[..|t| - 1]) + if t[|t| - 1] > 0.0 then 1 else 0
  }

  lemma {:induction false} AllPositive(t: seq<real>)
    requires forall i :: 0 <= i < |t| ==> t[i] > 0.0
    ensures Positives(t) == |t|
  {
    if t != [] { AllPositive(t[..|t| - 1]); }
  }

  lemma {:induction false} PositivesFirst(t: seq<real>, k: nat)
    requires Descending(t) && k < Positives(t)
    ensures Positives(t) <= |t| && t[k] > 0.0
  {
    var n := |t| - 1;
    if t[n] > 0.0 {
      AllPositive(t);
    } else {
      PositivesFirst(t[..n], k);
    }
  }

  lemma {:induction false} SumOfOnes(ones: seq<real>)
    requires forall i :: 0 <= i < |ones| ==> ones[i] == 1.0
    ensures Sum(ones) == |ones| as real
  {
    if ones != [] { SumOfOnes(ones[..|ones| - 1]); }
  }

  /** Fewer jobs than groups leave a group untouched. */
  lemma UntouchedGroup(place: seq<nat>, m: nat) returns (g: nat)
    requires |place| < m && forall i :: 0 <= i < |place| ==> place[i] < m
    ensures g < m && Count(place, g) == 0
  {
    var ones := seq(|place|, _ => 1.0);
    if forall h: nat :: h < m ==> Count(place, h) > 0 {
      forall h: nat | h < m ensures Load(ones, place, h) >= 1.0 {
        assert Count(place, h) > 0;
        LoadUniform(ones, place, h, 1.0);
      }
      SumOfOnes(ones);
      LoadsSum(ones, place, m);
      TogetherAtLeast(ones, place, m, 1.0);
      CopiesProduct(m, 1.0);
      assert false;
    }
    g :| g < m && Count(place, g) == 0;
  }

  /** With a group for every job that takes any time, a budget no single job
      exceeds is kept. */
  lemma {:induction false} FitsWithRoom(t: seq<real>, m: nat, bound: real)
    requires m > 0 && Descending(t) && Positives(t) <= m && bound >= 0.0
    requires forall i :: 0 <= i < |t| ==> t[i] <= bound
    ensures Within(t, Greedy(t, m), m, bound)
  {
    if t != [] {
      var n := |t| - 1;
      var place := Greedy(t[..n], m);
      FitsWithRoom(t[..n], m, bound);
      GreedyStep(t, m);
      var least := Lightest(Loads(t[..n], place, m));
      assert Load(t[..n], place, least) <= bound;
      if t[n] > 0.0 {
        AllPositive(t);
        var g := UntouchedGroup(place, m);
        CountZero(t[..n], place, g);
      }
      GreedyStepWithin(t, m, bound);
    }
  }

  /** Jobs that take time open the groups one after the other. */
  lemma {:induction false} OpensInTurn(t: seq<real>, m: nat)
    requires m >= |t| && m > 0 && forall i :: 0 <= i < |t| ==> t[i] > 0.0
    ensures forall i :: 0 <= i < |t| ==> Greedy(t, m)[i] == i
    ensures forall g: nat :: g < m ==> Load(t, Greedy(t, m), g) == if g < |t| then t[g] else 0.0
  {
    if t != [] {
      var n := |t| - 1;
      OpensInTurn(t[..n], m);
      GreedyStep(t, m);
      var loads := Loads(t[..n], Greedy(t[..n], m), m);
      assert loads[n] == 0.0 && forall g :: 0 <= g < n ==> loads[g] > 0.0;
      assert Greedy(t, m)[..n] == Greedy(t[..n], m);
    }
  }

  lemma {:induction false} GreedyPrefix(t: seq<real>, m: nat, k: nat)
    requires m > 0 && k <= |t|
    ensures Greedy(t, m)[..k] == Greedy(t[..k], m)
  {
    if k == |t| {
      assert t[..k] == t;
    } else {
      var n := |t| - 1;
      GreedyPrefix(t[..n], m, k);
      GreedyStep(t, m);
      assert t[..n][..k] == t[..k];
    }
  }

  /** No group stays empty when as many jobs as groups take time. */
  lemma NoneEmpty(t: seq<real>, m: nat)
    requires 0 < m <= Positives(t) && Descending(t)
    ensures m <= |t| && forall g: nat :: g < m ==> Greedy(t, m)[g] == g
  {
    PositivesFirst(t, m - 1);
    forall i | 0 <= i < m ensures t[i] > 0.0 { PositivesFirst(t, i); }
    OpensInTurn(t[..m], m);
    GreedyPrefix(t, m, m);
    forall g: nat | g < m ensures Greedy(t, m)[g] == g {
      assert Greedy(t, m)[g] == Greedy(t[..m], m)[g];
    }
  }

  /** A group a long job does not fit in is more than half full: it holds a
      job at least as long. */
  lemma HalfFull(t: seq<real>, m: nat, bound: real)
    requires m > 0 && |t| > 0 && Descending(t) && NonNegative(t) && t[|t| - 1] <= bound
    requires Within(t[..|t| - 1], Greedy(t[..|t| - 1], m), m, bound)
    requires !Within(t, Greedy(t, m), m, bound)
    ensures var n := |t| - 1;
            var place := Greedy(t[..n], m);
            2.0 * Load(t[..n], place, Lightest(Loads(t[..n], place, m))) > bound
  {
    var n := |t| - 1;
    var before := t[..n];
    var place := Greedy(before, m);
    var g := Lightest(Loads(before, place, m));
    if Load(before, place, g) + t[n] <= bound {
      GreedyStepWithin(t, m, bound);
      assert false;
    }
    if Count(place, g) == 0 {
      CountZero(before, place, g);
      assert false;
    }
    var i := CountWitness(place, g);
    LoadHoldsJob(before, place, i);
  }

  lemma LightestBelowAverage(t: seq<real>, m: nat)
    requires m > 0
    ensures var place := Greedy(t, m);
            Copies(m, Load(t, place, Lightest(Loads(t, place, m)))) <= Sum(t)
  {
    var place := Greedy(t, m);
    var loads := Loads(t, place, m);
    var least := loads[Lightest(loads)];
    forall g: nat | g < m ensures Load(t, place, g) >= least { assert loads[g] >= least; }
    LoadsSum(t, place, m);
    TogetherAtLeast(t, place, m, least);
  }

  /** A greedy split that overruns a budget no single job exceeds has more than
      half the groups' time to place. */
  lemma {:induction false} OverrunFillsHalf(t: seq<real>, m: nat, bound: real)
    requires m > 0 && Descending(t) && NonNegative(t)
    requires forall i :: 0 <= i < |t| ==> t[i] <= bound
    requires bound >= 0.0 && !Within(t, Greedy(t, m), m, bound)
    ensures 2.0 * Sum(t) > Copies(m, bound)
  {
    if t == [] {
      assert false;
    }
    var n := |t| - 1;
    var before := t[..n];
    var place := Greedy(before, m);
    assert Sum(before) <= Sum(t);
    if !Within(before, place, m, bound) {
      OverrunFillsHalf(before, m, bound);
    } else {
      HalfFull(t, m, bound);
      LightestBelowAverage(before, m);
      var least := Load(before, place, Lightest(Loads(before, place, m)));
      CopiesDouble(m, least);
      CopiesMonotone(m, bound, 2.0 * least);
    }
  }

  /** More than the groups can hold. */
  lemma FitsOnlyBelowTotal(t: seq<real>, place: seq<nat>, m: nat, bound: real)
    requires Placement(t, place, m) && Within(t, place, m, bound)
    ensures Sum(t) <= Copies(m, bound)
  {
    LoadsSum(t, place, m);
    TogetherAtMost(t, place, m, bound);
  }
}
