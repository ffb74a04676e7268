/** Maps merged key by key under any operation. */
module Merging {

  /** An operation and its neutral value; `fits` are the values it is for. */
  datatype Monoid<!V> = Monoid(op: (V, V) -> V, zero: V, fits: V -> bool)

  ghost predicate CommutesAt<V>(m: Monoid<V>, a: V, b: V) {
    m.op(a, b) == m.op(b, a)
  }

  ghost predicate AssociativeAt<V>(m: Monoid<V>, a: V, b: V, c: V) {
    m.op(m.op(a, b), c) == m.op(a, m.op(b, c))
  }

  ghost predicate NeutralAt<V>(m: Monoid<V>, a: V) {
    m.fits(a) ==> m.op(a, m.zero) == a
  }

  ghost predicate ClosedAt<V>(m: Monoid<V>, a: V, b: V) {
    m.fits(a) && m.fits(b) ==> m.fits(m.op(a, b))
  }

  ghost predicate Lawful<V(!new)>(m: Monoid<V>) {
    && (forall a, b :: CommutesAt(m, a, b)) && (forall a, b, c :: AssociativeAt(m, a, b, c))
    && (forall a :: NeutralAt(m, a)) && (forall a, b :: ClosedAt(m, a, b)) && m.fits(m.zero)
  }

  function At<K, V>(m: Monoid<V>, a: map<K, V>, key: K): V {
    if key in a then a[key] else m.zero
  }

  /** The keys of both, their values combined. */
  function Merge<K, V>(m: Monoid<V>, a: map<K, V>, b: map<K, V>): map<K, V> {
    map key | key in a.Keys + b.Keys :: m.op(At(m, a, key), At(m, b, key))
  }

  ghost predicate Fitting<K(!new), V>(m: Monoid<V>, a: map<K, V>) {
    forall key :: key in a ==> m.fits(a[key])
  }

  lemma MergeCommutes<K, V(!new)>(m: Monoid<V>, a: map<K, V>, b: map<K, V>)
    requires Lawful(m)
    ensures Merge(m, a, b) == Merge(m, b, a)
  {
    var left, right := Merge(m, a, b), Merge(m, b, a);
    forall key | key in left ensures key in right && left[key] == right[key] {
      assert CommutesAt(m, At(m, a, key), At(m, b, key));
    }
  }

  lemma MergeAt<K, V(!new)>(m: Monoid<V>, a: map<K, V>, b: map<K, V>, key: K)
    requires Lawful(m)
    ensures At(m, Merge(m, a, b), key) == m.op(At(m, a, key), At(m, b, key))
  {
    assert NeutralAt(m, m.zero);
  }

  lemma MergeAssociative<K, V(!new)>(m: Monoid<V>, a: map<K, V>, b: map<K, V>, c: map<K, V>)
    requires Lawful(m)
    ensures Merge(m, Merge(m, a, b), c) == Merge(m, a, Merge(m, b, c))
  {
    var left, right := Merge(m, Merge(m, a, b), c), Merge(m, a, Merge(m, b, c));
    forall key | key in left ensures key in right && left[key] == right[key] {
      MergeAt(m, a, b, key);
      MergeAt(m, b, c, key);
      assert AssociativeAt(m, At(m, a, key), At(m, b, key), At(m, c, key));
    }
    assert left.Keys == right.Keys;
  }

  lemma MergeNeutral<K(!new), V(!new)>(m: Monoid<V>, a: map<K, V>)
    requires Lawful(m) && Fitting(m, a)
    ensures Merge(m, a, map[]) == a
  {
    forall key | key in a ensures Merge(m, a, map[])[key] == a[key] {
      assert NeutralAt(m, a[key]);
    }
  }

  lemma MergeFits<K(!new), V(!new)>(m: Monoid<V>, a: map<K, V>, b: map<K, V>)
    requires Lawful(m) && Fitting(m, a) && Fitting(m, b)
    ensures Fitting(m, Merge(m, a, b))
  {
    forall key | key in Merge(m, a, b) ensures m.fits(Merge(m, a, b)[key]) {
      assert ClosedAt(m, At(m, a, key), At(m, b, key));
    }
  }

  /** Maps themselves, merged so, are lawful. */
  function Merged<K(!new), V(!new)>(m: Monoid<V>, fits: map<K, V> -> bool): Monoid<map<K, V>> {
    Monoid((a, b) => Merge(m, a, b), map[], fits)
  }

  lemma MergedLawful<K(!new), V(!new)>(m: Monoid<V>, fits: map<K, V> -> bool)
    requires Lawful(m) && forall a :: fits(a) <==> Fitting(m, a)
    ensures Lawful(Merged<K, V>(m, fits))
  {
    var n := Merged<K, V>(m, fits);
    forall a, b ensures CommutesAt(n, a, b) { MergeCommutes(m, a, b); }
    forall a, b, c ensures AssociativeAt(n, a, b, c) { MergeAssociative(m, a, b, c); }
    forall a ensures NeutralAt(n, a) { if fits(a) { MergeNeutral(m, a); } }
    forall a, b ensures ClosedAt(n, a, b) { if fits(a) && fits(b) { MergeFits(m, a, b); } }
  }

  // ---- One key at a time ----

  function Without<K, V>(a: map<K, V>, keys: set<K>): map<K, V> {
    map key | key in a && key !in keys :: a[key]
  }

  lemma WithoutNone<K, V>(a: map<K, V>)
    ensures Without(a, {}) == a && Without(a, a.Keys) == map[]
  {
  }

  /** Combining one more key of `more` into the merge so far. */
  lemma MergeOne<K, V(!new)>(m: Monoid<V>, a: map<K, V>, more: map<K, V>, rest: set<K>, key: K, sum: map<K, V>)
    requires Lawful(m) && key in rest && rest <= more.Keys && sum == Merge(m, a, Without(more, rest))
    requires key in a ==> m.fits(a[key])
    ensures sum[key := m.op(At(m, sum, key), more[key])] == Merge(m, a, Without(more, rest - {key}))
  {
    var next := Merge(m, a, Without(more, rest - {key}));
    var now := sum[key := m.op(At(m, sum, key), more[key])];
    forall k | k in now ensures k in next && now[k] == next[k] {
      if k == key { assert NeutralAt(m, At(m, a, key)); }
    }
    assert now.Keys == next.Keys;
  }

  /** Merging a map of one key. */
  lemma MergeSingle<K(!new), V(!new)>(m: Monoid<V>, a: map<K, V>, key: K, value: V)
    requires Lawful(m) && Fitting(m, a)
    ensures Merge(m, a, map[key := value]) == a[key := m.op(At(m, a, key), value)]
  {
    var sum := Merge(m, a, map[key := value]);
    forall k | k in a && k != key ensures sum[k] == a[k] {
      assert NeutralAt(m, a[k]);
    }
    assert sum.Keys == a.Keys + {key};
  }

  // ---- Many maps ----

  function MergeAll<V>(m: Monoid<V>, list: seq<V>): V {
    if list == [] then m.zero else m.op(MergeAll(m, list[..|list| - 1]), list[|list| - 1])
  }

  ghost predicate AllFit<V>(m: Monoid<V>, list: seq<V>) {
    forall k :: 0 <= k < |list| ==> m.fits(list[k])
  }

  lemma {:induction false} MergeAllFits<V(!new)>(m: Monoid<V>, list: seq<V>)
    requires Lawful(m) && AllFit(m, list)
    ensures m.fits(MergeAll(m, list))
  {
    if list != [] {
      var n := |list| - 1;
      MergeAllFits(m, list[..n]);
      assert ClosedAt(m, MergeAll(m, list[..n]), list[n]);
    }
  }

  /** Taking out one of the list and combining it last changes nothing. */
  lemma {:induction false} TakenOut<V(!new)>(m: Monoid<V>, list: seq<V>, i: nat)
    requires Lawful(m) && i < |list|
    ensures MergeAll(m, list) == m.op(MergeAll(m, list[..i] + list[i + 1..]), list[i])
  {
    var n := |list| - 1;
    var before := list[..n];
    if i == n {
      assert list[..i] + list[i + 1..] == before;
    } else {
      var rest := before[..i] + before[i + 1..];
      TakenOut(m, before, i);
      var left := list[..i] + list[i + 1..];
      assert left[..|left| - 1] == rest && left[|left| - 1] == list[n];
      var x := MergeAll(m, rest);
      assert AssociativeAt(m, x, list[i], list[n]) && AssociativeAt(m, x, list[n], list[i]);
      assert CommutesAt(m, list[i], list[n]);
    }
  }

  /** Two lists combined apart and then together. */
  lemma {:induction false} MergeAllConcat<V(!new)>(m: Monoid<V>, a: seq<V>, b: seq<V>)
    requires Lawful(m) && AllFit(m, a)
    ensures MergeAll(m, a + b) == m.op(MergeAll(m, a), MergeAll(m, b))
    decreases |b|
  {
    if b == [] {
      assert a + b == a;
      MergeAllFits(m, a);
      assert NeutralAt(m, MergeAll(m, a));
    } else {
      var n := |b| - 1;
      assert (a + b)[..|a| + n] == a + b[..n];
      MergeAllConcat(m, a, b[..n]);
      assert AssociativeAt(m, MergeAll(m, a), MergeAll(m, b[..n]), b[n]);
    }
  }

  /** The order of the list does not matter. */
  lemma {:induction false} MergeAllPermuted<V(!new)>(m: Monoid<V>, a: seq<V>, b: seq<V>)
    requires Lawful(m) && multiset(a) == multiset(b)
    ensures MergeAll(m, a) == MergeAll(m, b)
    decreases |a|
  {
    if a == [] {
      assert |multiset(b)| == 0;
    } else {
      var n := |a| - 1;
      assert a == a[..n] + [a[n]];
      assert a[n] in multiset(b);
      var i :| 0 <= i < |b| && b[i] == a[n];
      var rest := b[..i] + b[i + 1..];
      assert b == b[..i] + [b[i]] + b[i + 1..];
      assert multiset(rest) == multiset(b) - multiset{b[i]};
      MergeAllPermuted(m, a[..n], rest);
      TakenOut(m, b, i);
    }
  }
}
