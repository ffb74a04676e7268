/** What several parts share: optional values, the first place of a character,
    and lists without repetition. */
module Basics {

  datatype Option<T> = None | Some(value: T)

  /** Where the first `c` is, or the end. */
  function Find(s: string, c: char): (n: nat)
    ensures n <= |s| && (n < |s| ==> s[n] == c) && forall k :: 0 <= k < n ==> s[k] != c
  {
    if s == "" || s[0] == c then 0
    else
      assert forall k :: 0 < k < |s| ==> s[k] == s[1..][k - 1];
      1 + Find(s[1..], c)
  }

  ghost predicate Distinct<T>(s: seq<T>) {
    forall i, j :: 0 <= i < j < |s| ==> s[i] != s[j]
  }

  /** The elements of `s` other than `x`. */
  function Without<T(==, !new)>(s: seq<T>, x: T): (r: seq<T>)
    ensures forall y :: y in r <==> y in s && y != x
  {
    if s == [] then []
    else if s[0] == x then Without(s[1..], x)
    else [s[0]] + Without(s[1..], x)
  }

  /** The elements of `s` that `f` accepts, in order. */
  function Select<T>(s: seq<T>, f: T -> bool): seq<T> {
    if s == [] then [] else (if f(s[0]) then [s[0]] else []) + Select(s[1..], f)
  }

  lemma {:induction false} SelectHolds<T(!new)>(s: seq<T>, f: T -> bool)
    ensures forall x :: x in Select(s, f) <==> x in s && f(x)
    ensures Select(s, f) != [] ==> Select(s, f)[0] in s && f(Select(s, f)[0])
  {
    if s != [] { SelectHolds(s[1..], f); }
  }

  lemma {:induction false} SelectConcat<T>(a: seq<T>, b: seq<T>, f: T -> bool)
    ensures Select(a + b, f) == Select(a, f) + Select(b, f)
  {
    if a == [] {
      assert a + b == b;
    } else {
      var first := if f(a[0]) then [a[0]] else [];
      SelectConcat(a[1..], b, f);
      assert (a + b)[1..] == a[1..] + b;
      assert Select(a + b, f) == first + Select(a[1..] + b, f);
      Associate(first, Select(a[1..], f), Select(b, f));
    }
  }

  lemma SelectOne<T>(x: T, f: T -> bool)
    ensures Select([x], f) == if f(x) then [x] else []
  {
    assert [x][1..] == [];
  }

  lemma Associate<T>(a: seq<T>, b: seq<T>, c: seq<T>)
    ensures (a + b) + c == a + (b + c)
  {
  }
}
