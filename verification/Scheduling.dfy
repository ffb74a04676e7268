/** Longest-first greedy scheduling, over times alone: which group each job
    goes to, how heavy the groups get, and how that compares with every other
    placement of the same jobs. */
module Scheduling {

  /** The sum of some times. */
  function Sum(t: seq<real>): real {
    if t == [] then 0.0 else Sum(t[..|t| - 1]) + t[|t| - 1]
  }

  /** What group `g` holds when job `i` is placed in group `place[i]`. */
  ghost function Load(t: seq<real>, place: seq<nat>, g: nat): real
    requires |t| == |place|
  {
    if t == [] then 0.0
    else
      var n := |t| - 1;
      Load(t[..n], place[..n], g) + if place[n] == g then t[n] else 0.0
  }

  /** How many jobs group `g` holds. */
  ghost function Count(place: seq<nat>, g: nat): nat {
    if place == [] then 0
    else
      var n := |place| - 1;
      Count(place[..n], g) + if place[n] == g then 1 else 0
  }

  /** `g` is the lightest group, the lowest index on a tie. */
  predicate IsLightest(loads: seq<real>, g: nat) {
    && g < |loads|
    && (forall h :: 0 <= h < |loads| ==> loads[g] <= loads[h])
    && (forall h :: 0 <= h < g ==> loads[g] < loads[h])
  }

  lemma {:induction false} LightestExists(loads: seq<real>)
    requires |loads| > 0
    ensures exists g: nat :: IsLightest(loads, g)
  {
    var n := |loads| - 1;
    if n == 0 {
      assert IsLightest(loads, 0);
    } else {
      LightestExists(loads[..n]);
      var g: nat :| IsLightest(loads[..n], g);
      assert loads[..n][g] == loads[g];
      assert forall h :: 0 <= h < n ==> loads[..n][h] == loads[h];
      assert IsLightest(loads, if loads[n] < loads[g] then n else g);
    }
  }

  lemma LightestUnique(loads: seq<real>)
    ensures forall g: nat, h: nat :: IsLightest(loads, g) && IsLightest(loads, h) ==> g == h
  {
    forall g: nat, h: nat | IsLightest(loads, g) && IsLightest(loads, h) ensures g == h {
      assert loads[g] == loads[h];
    }
  }

  function Lightest(loads: seq<real>): (g: nat)
    requires |loads| > 0
    ensures IsLightest(loads, g)
  {
    LightestExists(loads);
    LightestUnique(loads);
    var g: nat :| IsLightest(loads, g);
    g
  }

  ghost function Loads(t: seq<real>, place: seq<nat>, m: nat): seq<real>
    requires |t| == |place|
  {
    seq(m, (g: nat) => Load(t, place, g))
  }

  /** Every job, in order, to the group lightest so far. */
  ghost function Greedy(t: seq<real>, m: nat): (place: seq<nat>)
    requires m > 0
    ensures |place| == |t| && forall i :: 0 <= i < |place| ==> place[i] < m
  {
    if t == [] then []
    else
      var n := |t| - 1;
      var place := Greedy(t[..n], m);
      place + [Lightest(Loads(t[..n], place, m))]
  }

  ghost predicate Placement(t: seq<real>, place: seq<nat>, m: nat) {
    |place| == |t| && forall i :: 0 <= i < |place| ==> place[i] < m
  }

  /** No group of `place` holds more than `most`. */
  ghost predicate Within(t: seq<real>, place: seq<nat>, m: nat, most: real)
    requires |t| == |place|
  {
    forall g: nat :: g < m ==> Load(t, place, g) <= most
  }

  ghost predicate NonNegative(t: seq<real>) {
    forall i :: 0 <= i < |t| ==> t[i] >= 0.0
  }

  /** Longest first. */
  ghost predicate Descending(t: seq<real>) {
    forall i, j :: 0 <= i < j < |t| ==> t[i] >= t[j]
  }

  // ---- Sums over groups ----

  /** The loads of the first `m` groups together. */
  ghost function Together(t: seq<real>, place: seq<nat>, m: nat): real
    requires |t| == |place|
  {
    if m == 0 then 0.0 else Together(t, place, m - 1) + Load(t, place, m - 1)
  }

  lemma {:induction false} TogetherStep(t: seq<real>, place: seq<nat>, m: nat)
    requires |t| == |place| > 0
    ensures var n := |t| - 1;
            Together(t, place, m) == Together(t[..n], place[..n], m) + if place[n] < m then t[n] else 0.0
  {
    if m > 0 { TogetherStep(t, place, m - 1); }
  }

  lemma {:induction false} TogetherEmpty(m: nat)
    ensures Together([], [], m) == 0.0
  {
    if m > 0 { TogetherEmpty(m - 1); }
  }

  /** Nothing is lost: the groups' loads sum to the jobs' times. */
  lemma {:induction false} LoadsSum(t: seq<real>, place: seq<nat>, m: nat)
    requires Placement(t, place, m)
    ensures Together(t, place, m) == Sum(t)
  {
    if t == [] {
      assert place == [];
      TogetherEmpty(m);
    } else {
      var n := |t| - 1;
      LoadsSum(t[..n], place[..n], m);
      TogetherStep(t, place, m);
    }
  }

  /** `m` groups of `x` each: `m * x`, kept out of the solver's nonlinear
      arithmetic. */
  ghost function Copies(m: nat, x: real): real {
    if m == 0 then 0.0 else Copies(m - 1, x) + x
  }

  lemma {:induction false} CopiesProduct(m: nat, x: real)
    ensures Copies(m, x) == m as real * x
  {
    if m > 0 {
      CopiesProduct(m - 1, x);
      assert m as real * x == (m - 1) as real * x + x;
    }
  }

  lemma {:induction false} CopiesMonotone(m: nat, x: real, y: real)
    requires x <= y
    ensures Copies(m, x) <= Copies(m, y)
    ensures m > 0 && x < y ==> Copies(m, x) < Copies(m, y)
  {
    if m > 0 { CopiesMonotone(m - 1, x, y); }
  }

  lemma {:induction false} CopiesDouble(m: nat, x: real)
    ensures Copies(m, 2.0 * x) == 2.0 * Copies(m, x)
  {
    if m > 0 { CopiesDouble(m - 1, x); }
  }

  lemma {:induction false} TogetherAtLeast(t: seq<real>, place: seq<nat>, m: nat, least: real)
    requires |t| == |place|
    requires forall g: nat :: g < m ==> Load(t, place, g) >= least
    ensures Together(t, place, m) >= Copies(m, least)
  {
    if m > 0 { TogetherAtLeast(t, place, m - 1, least); }
  }

  lemma {:induction false} TogetherAtMost(t: seq<real>, place: seq<nat>, m: nat, most: real)
    requires |t| == |place|
    requires Within(t, place, m, most)
    ensures Together(t, place, m) <= Copies(m, most)
  {
    if m > 0 { TogetherAtMost(t, place, m - 1, most); }
  }

  // ---- One group ----

  /** Job `i`'s group holds at least job `i`. */
  lemma {:induction false} LoadHoldsJob(t: seq<real>, place: seq<nat>, i: nat)
    requires |t| == |place| && NonNegative(t) && i < |t|
    ensures Load(t, place, place[i]) >= t[i]
  {
    var n := |t| - 1;
    LoadNonNegative(t[..n], place[..n], place[i]);
    if i < n { LoadHoldsJob(t[..n], place[..n], i); }
  }

  lemma {:induction false} LoadNonNegative(t: seq<real>, place: seq<nat>, g: nat)
    requires |t| == |place| && NonNegative(t)
    ensures Load(t, place, g) >= 0.0
  {
    if t != [] {
      var n := |t| - 1;
      LoadNonNegative(t[..n], place[..n], g);
    }
  }

  /** Two jobs of one group fit in it together. */
  lemma {:induction false} LoadHoldsPair(t: seq<real>, place: seq<nat>, i: nat, j: nat)
    requires |t| == |place| && NonNegative(t)
    requires i < j < |t| && place[i] == place[j]
    ensures Load(t, place, place[i]) >= t[i] + t[j]
  {
    var n := |t| - 1;
    if j == n {
      LoadHoldsJob(t[..n], place[..n], i);
    } else {
      LoadHoldsPair(t[..n], place[..n], i, j);
    }
  }

  /** Dropping the last job makes no group heavier. */
  lemma WithinPrefix(t: seq<real>, place: seq<nat>, m: nat, most: real)
    requires |t| == |place| > 0 && NonNegative(t) && Within(t, place, m, most)
    ensures var n := |t| - 1; Within(t[..n], place[..n], m, most)
  {
    var n := |t| - 1;
    forall g: nat | g < m ensures Load(t[..n], place[..n], g) <= most {
      assert Load(t, place, g) <= most;
    }
  }

  /** A group whose jobs all weigh `v`. */
  lemma {:induction false} LoadUniform(t: seq<real>, place: seq<nat>, g: nat, v: real)
    requires |t| == |place|
    requires forall i :: 0 <= i < |t| && place[i] == g ==> t[i] == v
    ensures Load(t, place, g) == v * Count(place, g) as real
  {
    if t != [] {
      var n := |t| - 1;
      LoadUniform(t[..n], place[..n], g, v);
    }
  }

  lemma {:induction false} LoadAbove(t: seq<real>, place: seq<nat>, g: nat, v: real)
    requires |t| == |place| && v >= 0.0
    requires forall i :: 0 <= i < |t| ==> t[i] > v
    ensures Load(t, place, g) >= v * Count(place, g) as real
    ensures Count(place, g) > 0 ==> Load(t, place, g) > v * Count(place, g) as real
  {
    if t != [] {
      var n := |t| - 1;
      LoadAbove(t[..n], place[..n], g, v);
      assert v * (Count(place[..n], g) + 1) as real == v * Count(place[..n], g) as real + v;
    }
  }

  lemma {:induction false} CountPositive(place: seq<nat>, i: nat)
    requires i < |place|
    ensures Count(place, place[i]) > 0
  {
    var n := |place| - 1;
    if i < n { CountPositive(place[..n], i); }
  }

  lemma {:induction false} CountZero(t: seq<real>, place: seq<nat>, g: nat)
    requires |t| == |place| && Count(place, g) == 0
    ensures Load(t, place, g) == 0.0
  {
    if t != [] {
      var n := |t| - 1;
      CountZero(t[..n], place[..n], g);
    }
  }

  /** The only job of its group is its group's load. */
  lemma {:induction false} LoadOfLoneJob(t: seq<real>, place: seq<nat>, i: nat)
    requires |t| == |place| && i < |t| && Count(place, place[i]) == 1
    ensures Load(t, place, place[i]) == t[i]
  {
    var n := |t| - 1;
    if i < n {
      CountPositive(place[..n], i);
      LoadOfLoneJob(t[..n], place[..n], i);
    } else {
      CountZero(t[..n], place[..n], place[i]);
    }
  }

  lemma {:induction false} CountWitness(place: seq<nat>, g: nat) returns (j: nat)
    requires Count(place, g) > 0
    ensures j < |place| && place[j] == g
  {
    var n := |place| - 1;
    if place[n] == g { j := n; } else { j := CountWitness(place[..n], g); }
  }

  /** A job with company in its group has a companion. */
  lemma {:induction false} Companion(place: seq<nat>, i: nat) returns (j: nat)
    requires i < |place| && Count(place, place[i]) > 1
    ensures j < |place| && j != i && place[j] == place[i]
  {
    var n := |place| - 1;
    if i == n {
      j := CountWitness(place[..n], place[i]);
    } else if place[n] == place[i] {
      j := n;
    } else {
      j := Companion(place[..n], i);
    }
  }
}
