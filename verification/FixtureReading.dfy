/** How a fixture is read and checked (crates/mockapp/src/fixture.rs): `convert`
    and `nest` with the set of ids seen so far, and `take_native`. */
module FixtureReading {
  import opened Basics
  import opened Arenas
  import opened Fixtures
  import Decimal

  datatype RawNode = RawNode(
    id: string,
    role: string,
    states: seq<string>,
    name: Option<string>,
    value: Option<string>,
    description: Option<string>,
    text: Option<string>,
    controllerFor: Option<string>,
    native: Option<string>,
    nested: nat,
    children: seq<RawNode>)

  /** The names a fixture may use, and what they mean. */
  datatype Vocabulary = Vocabulary(roles: set<string>, states: map<string, State>)

  datatype Result<T> =
    | Ok(value: T)
    | UnknownRole(id: string, role: string)
    | UnknownState(id: string, state: string)
    | DuplicateId(id: string)
    | UnknownControlled(id: string, controlled: string)

  // ---- What a fixture should be read as ----

  function NestId(id: string, level: nat): string {
    id + "-nest-" + Decimal.Digits(level)
  }

  /** The ids `nest` adds, in the order it adds them. */
  ghost function NestIds(id: string, level: nat): seq<string> {
    if level == 0 then [] else [NestId(id, level)] + NestIds(id, level - 1)
  }

  /** Every id reading a node takes, in the order it takes them. */
  ghost function RawIds(raw: RawNode): seq<string>
    decreases raw
  {
    [raw.id] + RawIdsAll(raw.children) + NestIds(raw.id, raw.nested)
  }

  ghost function RawIdsAll(list: seq<RawNode>): seq<string>
    decreases list
  {
    if list == [] then [] else RawIdsAll(list[..|list| - 1]) + RawIds(list[|list| - 1])
  }

  ghost predicate KnownStates(states: seq<string>, vocabulary: Vocabulary) {
    forall i :: 0 <= i < |states| ==> states[i] in vocabulary.states
  }

  /** Every role and state of a node and everything under it is known. */
  ghost predicate Readable(raw: RawNode, vocabulary: Vocabulary)
    decreases raw
  {
    raw.role in vocabulary.roles && KnownStates(raw.states, vocabulary) && ReadableAll(raw.children, vocabulary)
  }

  ghost predicate ReadableAll(list: seq<RawNode>, vocabulary: Vocabulary)
    decreases list
  {
    list == [] || (ReadableAll(list[..|list| - 1], vocabulary) && Readable(list[|list| - 1], vocabulary))
  }

  function Group(id: string, level: nat, inner: FixtureNode): FixtureNode {
    FixtureNode(NestId(id, level), Details("group", Some("Nest " + Decimal.Digits(level)), None, None, None),
                {}, None, None, [inner])
  }

  /** `node` under groups `level` down to 1, the first right above it. */
  ghost function Wrapped(node: FixtureNode, id: string, level: nat): FixtureNode
    decreases level
  {
    if level == 0 then node else Wrapped(Group(id, level, node), id, level - 1)
  }

  ghost function StatesOf(states: seq<string>, vocabulary: Vocabulary): set<State> {
    set i | 0 <= i < |states| && states[i] in vocabulary.states :: vocabulary.states[states[i]]
  }

  /** The node a raw node is read as, when it is. */
  ghost function Shaped(raw: RawNode, vocabulary: Vocabulary): FixtureNode
    decreases raw
  {
    Wrapped(FixtureNode(raw.id, Details(raw.role, raw.name, raw.value, raw.description, raw.text),
                        StatesOf(raw.states, vocabulary), raw.controllerFor, raw.native,
                        ShapedAll(raw.children, vocabulary)),
            raw.id, raw.nested)
  }

  ghost function ShapedAll(list: seq<RawNode>, vocabulary: Vocabulary): seq<FixtureNode>
    decreases list
  {
    if list == [] then []
    else ShapedAll(list[..|list| - 1], vocabulary) + [Shaped(list[|list| - 1], vocabulary)]
  }

  // ---- Fresh ids ----

  ghost function Members(ids: seq<string>): set<string> {
    set id | id in ids
  }

  /** `ids` repeat neither each other nor any seen before. */
  ghost predicate Fresh(ids: seq<string>, seen: set<string>) {
    Distinct(ids) && forall i :: 0 <= i < |ids| ==> ids[i] !in seen
  }

  lemma MembersConcat(p: seq<string>, q: seq<string>)
    ensures Members(p + q) == Members(p) + Members(q)
  {
  }

  lemma FreshConcat(p: seq<string>, q: seq<string>, seen: set<string>)
    ensures Fresh(p + q, seen) <==> Fresh(p, seen) && Fresh(q, seen + Members(p))
  {
    var both := p + q;
    if Fresh(both, seen) {
      assert forall i :: 0 <= i < |p| ==> both[i] == p[i];
      assert forall j :: 0 <= j < |q| ==> both[|p| + j] == q[j];
      assert forall j :: 0 <= j < |q| ==> q[j] !in Members(p);
    }
    if Fresh(p, seen) && Fresh(q, seen + Members(p)) {
      forall i, j | 0 <= i < j < |both| ensures both[i] != both[j] {
        if i < |p| <= j {
          assert p[i] in Members(p);
          assert q[j - |p|] !in seen + Members(p);
        }
      }
    }
  }

  // ---- Reading ----

  /** `nest`: the groups of a node's own that it is placed under. */
  method Nest(node: FixtureNode, nested: nat, seen: set<string>)
    returns (r: Result<FixtureNode>, seen': set<string>)
    ensures r.Ok? <==> Fresh(NestIds(node.id, nested), seen)
    ensures r.Ok? ==> r.value == Wrapped(node, node.id, nested)
    ensures r.Ok? ==> seen' == seen + Members(NestIds(node.id, nested))
    ensures !r.Ok? ==> r.DuplicateId?
  {
    var id := node.id;
    var inner := node;
    seen' := seen;
    var level: nat := nested;
    while level > 0
      invariant level <= nested
      invariant Wrapped(inner, id, level) == Wrapped(node, id, nested)
      invariant Fresh(NestIds(id, nested), seen) <==> Fresh(NestIds(id, level), seen')
      invariant seen + Members(NestIds(id, nested)) == seen' + Members(NestIds(id, level))
    {
      FreshConcat([NestId(id, level)], NestIds(id, level - 1), seen');
      MembersConcat([NestId(id, level)], NestIds(id, level - 1));
      if NestId(id, level) in seen' {
        assert [NestId(id, level)][0] in seen';
        return DuplicateId(NestId(id, level)), seen';
      }
      seen' := seen' + {NestId(id, level)};
      inner := Group(id, level, inner);
      level := level - 1;
    }
    r := Ok(inner);
  }

  method ReadStates(id: string, states: seq<string>, vocabulary: Vocabulary) returns (r: Result<set<State>>)
    ensures r.Ok? <==> KnownStates(states, vocabulary)
    ensures r.Ok? ==> r.value == StatesOf(states, vocabulary)
    ensures !r.Ok? ==> r.UnknownState?
  {
    var found: set<State> := {};
    for i := 0 to |states|
      invariant forall j :: 0 <= j < i ==> states[j] in vocabulary.states
      invariant found == StatesOf(states[..i], vocabulary)
    {
      if states[i] !in vocabulary.states { return UnknownState(id, states[i]); }
      assert states[..i + 1] == states[..i] + [states[i]];
      found := found + {vocabulary.states[states[i]]};
      assert found == StatesOf(states[..i + 1], vocabulary) by {
        assert forall j :: 0 <= j < i ==> states[..i + 1][j] == states[..i][j];
        assert states[..i + 1][i] == states[i];
      }
    }
    assert states[..|states|] == states;
    r := Ok(found);
  }

  lemma RawIdsFresh(id: string, children: seq<string>, nest: seq<string>, seen: set<string>)
    ensures Fresh([id] + children + nest, seen) <==>
            id !in seen && Fresh(children, seen + {id}) && Fresh(nest, seen + {id} + Members(children))
    ensures seen + Members([id] + children + nest) == seen + {id} + Members(children) + Members(nest)
  {
    FreshConcat([id] + children, nest, seen);
    FreshConcat([id], children, seen);
    MembersConcat([id] + children, nest);
    MembersConcat([id], children);
    assert Members([id]) == {id};
    assert seen + (Members([id]) + Members(children)) == seen + {id} + Members(children);
    assert Fresh([id], seen) <==> id !in seen;
  }

  /** A node is read exactly when every role and state under it is known and no
      id, those of its nesting groups included, is repeated or was seen. */
  method Convert(raw: RawNode, seen: set<string>, vocabulary: Vocabulary)
    returns (r: Result<FixtureNode>, seen': set<string>)
    ensures r.Ok? <==> Readable(raw, vocabulary) && Fresh(RawIds(raw), seen)
    ensures r.Ok? ==> r.value == Shaped(raw, vocabulary) && seen' == seen + Members(RawIds(raw))
    ensures r.DuplicateId? ==> !Fresh(RawIds(raw), seen)
    ensures r.UnknownRole? || r.UnknownState? ==> !Readable(raw, vocabulary)
    ensures !r.UnknownControlled?
    decreases raw, 1
  {
    RawIdsFresh(raw.id, RawIdsAll(raw.children), NestIds(raw.id, raw.nested), seen);
    seen' := seen;
    if raw.id in seen' { return DuplicateId(raw.id), seen'; }
    seen' := seen' + {raw.id};
    if raw.role !in vocabulary.roles { return UnknownRole(raw.id, raw.role), seen'; }
    var states := ReadStates(raw.id, raw.states, vocabulary);
    if !states.Ok? { return UnknownState(states.id, states.state), seen'; }
    var list;
    list, seen' := ConvertAll(raw.children, seen', vocabulary);
    if !list.Ok? {
      r := match list
        case UnknownRole(id, role) => UnknownRole(id, role)
        case UnknownState(id, state) => UnknownState(id, state)
        case DuplicateId(id) => DuplicateId(id)
        case UnknownControlled(id, controlled) => UnknownControlled(id, controlled);
      return;
    }
    var node := FixtureNode(raw.id, Details(raw.role, raw.name, raw.value, raw.description, raw.text),
                            states.value, raw.controllerFor, raw.native, list.value);
    r, seen' := Nest(node, raw.nested, seen');
  }

  /** The loop of `convert` over a node's children. */
  method ConvertAll(list: seq<RawNode>, seen: set<string>, vocabulary: Vocabulary)
    returns (r: Result<seq<FixtureNode>>, seen': set<string>)
    ensures r.Ok? <==> ReadableAll(list, vocabulary) && Fresh(RawIdsAll(list), seen)
    ensures r.Ok? ==> r.value == ShapedAll(list, vocabulary) && seen' == seen + Members(RawIdsAll(list))
    ensures r.DuplicateId? ==> !Fresh(RawIdsAll(list), seen)
    ensures r.UnknownRole? || r.UnknownState? ==> !ReadableAll(list, vocabulary)
    ensures !r.UnknownControlled?
    decreases list, 0
  {
    seen' := seen;
    var children := [];
    for k := 0 to |list|
      invariant ReadableAll(list[..k], vocabulary) && Fresh(RawIdsAll(list[..k]), seen)
      invariant children == ShapedAll(list[..k], vocabulary)
      invariant seen' == seen + Members(RawIdsAll(list[..k]))
    {
      ghost var before := RawIdsAll(list[..k]);
      assert list[..k + 1][..k] == list[..k];
      FreshConcat(before, RawIds(list[k]), seen);
      MembersConcat(before, RawIds(list[k]));
      var child;
      child, seen' := Convert(list[k], seen', vocabulary);
      if !child.Ok? {
        RejectedPrefix(list, k + 1, seen, vocabulary);
        r := match child
          case UnknownRole(id, role) => UnknownRole(id, role)
          case UnknownState(id, state) => UnknownState(id, state)
          case DuplicateId(id) => DuplicateId(id)
          case UnknownControlled(id, controlled) => UnknownControlled(id, controlled);
        return;
      }
      children := children + [child.value];
    }
    assert list[..|list|] == list;
    r := Ok(children);
  }

  /** What refuses some first children refuses them all. */
  lemma {:induction false} RejectedPrefix(list: seq<RawNode>, k: nat, seen: set<string>, vocabulary: Vocabulary)
    requires k <= |list|
    ensures ReadableAll(list, vocabulary) ==> ReadableAll(list[..k], vocabulary)
    ensures Fresh(RawIdsAll(list), seen) ==> Fresh(RawIdsAll(list[..k]), seen)
    decreases list
  {
    if k == |list| {
      assert list[..k] == list;
    } else {
      var n := |list| - 1;
      RejectedPrefix(list[..n], k, seen, vocabulary);
      assert list[..n][..k] == list[..k];
      FreshConcat(RawIdsAll(list[..n]), RawIds(list[n]), seen);
    }
  }

  // ---- The ids of what is read ----

  /** The ids of a node and everything under it, in no order. */
  ghost function Bag(node: FixtureNode): multiset<string>
    decreases node
  {
    multiset{node.id} + BagAll(node.children)
  }

  ghost function BagAll(list: seq<FixtureNode>): multiset<string>
    decreases list
  {
    if list == [] then multiset{} else BagAll(list[..|list| - 1]) + Bag(list[|list| - 1])
  }

  lemma {:induction false} BagOfIds(node: FixtureNode)
    ensures Bag(node) == multiset(Ids(node))
    decreases node
  {
    BagAllOfIds(node.children);
  }

  lemma {:induction false} BagAllOfIds(list: seq<FixtureNode>)
    ensures BagAll(list) == multiset(IdsAll(list))
    decreases list
  {
    if list != [] {
      BagAllOfIds(list[..|list| - 1]);
      BagOfIds(list[|list| - 1]);
    }
  }

  lemma {:induction false} BagAllPush(list: seq<FixtureNode>, node: FixtureNode)
    ensures BagAll(list + [node]) == BagAll(list) + Bag(node)
  {
    assert (list + [node])[..|list|] == list;
  }

  ghost function NestBag(id: string, level: nat): multiset<string> {
    if level == 0 then multiset{} else multiset{NestId(id, level)} + NestBag(id, level - 1)
  }

  ghost function RawBag(raw: RawNode): multiset<string>
    decreases raw
  {
    multiset{raw.id} + RawBagAll(raw.children) + NestBag(raw.id, raw.nested)
  }

  ghost function RawBagAll(list: seq<RawNode>): multiset<string>
    decreases list
  {
    if list == [] then multiset{} else RawBagAll(list[..|list| - 1]) + RawBag(list[|list| - 1])
  }

  lemma {:induction false} NestBagOfIds(id: string, level: nat)
    ensures NestBag(id, level) == multiset(NestIds(id, level))
  {
    if level > 0 { NestBagOfIds(id, level - 1); }
  }

  lemma {:induction false} RawBagOfIds(raw: RawNode)
    ensures RawBag(raw) == multiset(RawIds(raw))
    decreases raw
  {
    RawBagAllOfIds(raw.children);
    NestBagOfIds(raw.id, raw.nested);
  }

  lemma {:induction false} RawBagAllOfIds(list: seq<RawNode>)
    ensures RawBagAll(list) == multiset(RawIdsAll(list))
    decreases list
  {
    if list != [] {
      RawBagAllOfIds(list[..|list| - 1]);
      RawBagOfIds(list[|list| - 1]);
    }
  }

  lemma {:induction false} WrappedBag(node: FixtureNode, id: string, level: nat)
    ensures Bag(Wrapped(node, id, level)) == Bag(node) + NestBag(id, level)
    decreases level
  {
    if level > 0 {
      var group := Group(id, level, node);
      WrappedBag(group, id, level - 1);
      BagAllPush([], node);
      assert [] + [node] == [node];
      assert Bag(group) == multiset{NestId(id, level)} + (multiset{} + Bag(node));
    }
  }

  lemma {:induction false} ShapedBag(raw: RawNode, vocabulary: Vocabulary)
    ensures Bag(Shaped(raw, vocabulary)) == RawBag(raw)
    decreases raw
  {
    ShapedAllBag(raw.children, vocabulary);
    var node := FixtureNode(raw.id, Details(raw.role, raw.name, raw.value, raw.description, raw.text),
                            StatesOf(raw.states, vocabulary), raw.controllerFor, raw.native,
                            ShapedAll(raw.children, vocabulary));
    WrappedBag(node, raw.id, raw.nested);
  }

  lemma {:induction false} ShapedAllBag(list: seq<RawNode>, vocabulary: Vocabulary)
    ensures BagAll(ShapedAll(list, vocabulary)) == RawBagAll(list)
    decreases list
  {
    if list != [] {
      var n := |list| - 1;
      ShapedAllBag(list[..n], vocabulary);
      ShapedBag(list[n], vocabulary);
      BagAllPush(ShapedAll(list[..n], vocabulary), Shaped(list[n], vocabulary));
    }
  }

  lemma {:induction false} DistinctBag(ids: seq<string>)
    ensures Distinct(ids) <==> forall id :: multiset(ids)[id] <= 1
  {
    if ids != [] {
      var n := |ids| - 1;
      DistinctBag(ids[..n]);
      assert ids == ids[..n] + [ids[n]];
      if Distinct(ids) {
        assert Distinct(ids[..n]);
        assert ids[n] !in ids[..n];
        forall id ensures multiset(ids)[id] <= 1 { assert multiset(ids[..n])[id] <= 1; }
      }
      if forall id :: multiset(ids)[id] <= 1 {
        forall id ensures multiset(ids[..n])[id] <= 1 { assert multiset(ids)[id] <= 1; }
        assert multiset(ids)[ids[n]] <= 1;
        assert ids[n] !in multiset(ids[..n]);
      }
    }
  }

  /** A fixture that is read has distinct ids. */
  lemma ReadIdsDistinct(raw: RawNode, vocabulary: Vocabulary)
    requires Distinct(RawIds(raw))
    ensures Distinct(Ids(Shaped(raw, vocabulary)))
  {
    ShapedBag(raw, vocabulary);
    BagOfIds(Shaped(raw, vocabulary));
    RawBagOfIds(raw);
    DistinctBag(RawIds(raw));
    DistinctBag(Ids(Shaped(raw, vocabulary)));
  }

  // ---- Real controls ----

  /** `take_native`: what stays of a node, and what is taken out from under it. */
  ghost function Kept(node: FixtureNode): FixtureNode
    decreases node, 1
  {
    node.(children := KeptAll(node.children))
  }

  ghost function KeptAll(list: seq<FixtureNode>): seq<FixtureNode>
    decreases list, 0
  {
    if list == [] then []
    else
      var n := |list| - 1;
      KeptAll(list[..n]) + if list[n].native.Some? then [] else [Kept(list[n])]
  }

  ghost function Taken(list: seq<FixtureNode>): seq<FixtureNode>
    decreases list
  {
    if list == [] then []
    else
      var n := |list| - 1;
      Taken(list[..n]) + if list[n].native.Some? then [list[n]] else Taken(list[n].children)
  }

  method TakeNative(node: FixtureNode) returns (kept: FixtureNode, taken: seq<FixtureNode>)
    ensures kept == Kept(node) && taken == Taken(node.children)
    decreases node
  {
    taken := [];
    var children := [];
    for k := 0 to |node.children|
      invariant taken == Taken(node.children[..k]) && children == KeptAll(node.children[..k])
    {
      var child := node.children[k];
      assert node.children[..k + 1][..k] == node.children[..k];
      if child.native.Some? {
        taken := taken + [child];
      } else {
        var stays, more := TakeNative(child);
        taken := taken + more;
        children := children + [stays];
      }
    }
    assert node.children[..|node.children|] == node.children;
    kept := node.(children := children);
  }

  ghost predicate NoNative(list: seq<FixtureNode>)
    decreases list
  {
    forall i :: 0 <= i < |list| ==> list[i].native.None? && NoNative(list[i].children)
  }

  ghost function BagSum<T>(bag: T -> multiset<string>, list: seq<T>): multiset<string> {
    if list == [] then multiset{} else BagSum(bag, list[..|list| - 1]) + bag(list[|list| - 1])
  }

  lemma {:induction false} BagSumConcat<T>(bag: T -> multiset<string>, p: seq<T>, q: seq<T>)
    ensures BagSum(bag, p + q) == BagSum(bag, p) + BagSum(bag, q)
    decreases |q|
  {
    if q == [] {
      assert p + q == p;
    } else {
      var n := |q| - 1;
      assert (p + q)[..|p| + n] == p + q[..n];
      BagSumConcat(bag, p, q[..n]);
    }
  }

  lemma {:induction false} BagAllIsSum(list: seq<FixtureNode>, bag: FixtureNode -> multiset<string>)
    requires forall node :: bag(node) == Bag(node)
    ensures BagAll(list) == BagSum(bag, list)
    decreases |list|
  {
    if list != [] { BagAllIsSum(list[..|list| - 1], bag); }
  }

  lemma BagAllConcat(p: seq<FixtureNode>, q: seq<FixtureNode>)
    ensures BagAll(p + q) == BagAll(p) + BagAll(q)
  {
    var bag := (node: FixtureNode) => Bag(node);
    BagAllIsSum(p, bag);
    BagAllIsSum(q, bag);
    BagAllIsSum(p + q, bag);
    BagSumConcat(bag, p, q);
  }

  /** Every node under a fixture is either kept or taken, once. */
  lemma {:induction false} NativeConserved(list: seq<FixtureNode>)
    ensures BagAll(KeptAll(list)) + BagAll(Taken(list)) == BagAll(list)
    decreases list
  {
    if list != [] {
      var n := |list| - 1;
      var last := list[n];
      NativeConserved(list[..n]);
      var k, t := KeptAll(list[..n]), Taken(list[..n]);
      assert BagAll(list) == (BagAll(k) + BagAll(t)) + Bag(last);
      if last.native.Some? {
        BagAllPush(t, last);
        assert KeptAll(list) == k + [] == k;
        calc {
          BagAll(KeptAll(list)) + BagAll(Taken(list));
          BagAll(k) + BagAll(t + [last]);
          BagAll(k) + (BagAll(t) + Bag(last));
          (BagAll(k) + BagAll(t)) + Bag(last);
        }
      } else {
        var a, b := BagAll(KeptAll(last.children)), BagAll(Taken(last.children));
        NativeConserved(last.children);
        BagAllPush(k, Kept(last));
        BagAllConcat(t, Taken(last.children));
        calc {
          BagAll(KeptAll(list)) + BagAll(Taken(list));
          BagAll(k + [Kept(last)]) + BagAll(t + Taken(last.children));
          (BagAll(k) + (multiset{last.id} + a)) + (BagAll(t) + b);
          { Shuffle(BagAll(k), BagAll(t), multiset{last.id}, a, b); }
          (BagAll(k) + BagAll(t)) + Bag(last);
        }
      }
    }
  }

  lemma Shuffle(k: multiset<string>, t: multiset<string>, i: multiset<string>, a: multiset<string>, b: multiset<string>)
    ensures (k + (i + a)) + (t + b) == (k + t) + (i + (a + b))
  {
  }

  /** No real control is left, and only real controls are taken. */
  lemma {:induction false} NativeTaken(list: seq<FixtureNode>)
    ensures NoNative(KeptAll(list)) && forall i :: 0 <= i < |Taken(list)| ==> Taken(list)[i].native.Some?
    decreases list
  {
    if list != [] {
      NativeTaken(list[..|list| - 1]);
      NativeTaken(list[|list| - 1].children);
    }
  }

  lemma KeptDistinct(node: FixtureNode)
    requires Distinct(Ids(node))
    ensures Distinct(Ids(Kept(node)))
  {
    NativeConserved(node.children);
    BagOfIds(node);
    BagOfIds(Kept(node));
    DistinctBag(Ids(node));
    DistinctBag(Ids(Kept(node)));
    forall id ensures multiset(Ids(Kept(node)))[id] <= 1 {
      assert multiset(Ids(node))[id] <= 1;
    }
  }

  // ---- Loading ----

  /** Every relation under a node names one of `ids`. */
  ghost predicate ControlledIn(node: FixtureNode, ids: set<string>)
    decreases node
  {
    && (node.controllerFor.Some? ==> node.controllerFor.value in ids)
    && forall i :: 0 <= i < |node.children| ==> ControlledIn(node.children[i], ids)
  }

  method CheckControlled(node: FixtureNode, ids: set<string>) returns (r: Result<()>)
    ensures r.Ok? <==> ControlledIn(node, ids)
    ensures !r.Ok? ==> r.UnknownControlled? && r.controlled !in ids
    decreases node
  {
    if node.controllerFor.Some? && node.controllerFor.value !in ids {
      return UnknownControlled(node.id, node.controllerFor.value);
    }
    for k := 0 to |node.children|
      invariant forall i :: 0 <= i < k ==> ControlledIn(node.children[i], ids)
    {
      r := CheckControlled(node.children[k], ids);
      if !r.Ok? { return; }
    }
    r := Ok(());
  }

  /** A fixture is loaded exactly when it can be read, repeats no id and names
      only its own ids; what is loaded has distinct ids. */
  method Load(raw: RawNode, vocabulary: Vocabulary) returns (r: Result<FixtureNode>)
    ensures r.Ok? <==> Readable(raw, vocabulary) && Distinct(RawIds(raw))
                       && ControlledIn(Shaped(raw, vocabulary), Members(RawIds(raw)))
    ensures r.Ok? ==> r.value == Shaped(raw, vocabulary) && Distinct(Ids(r.value))
  {
    var root, seen := Convert(raw, {}, vocabulary);
    assert Fresh(RawIds(raw), {}) <==> Distinct(RawIds(raw));
    if !root.Ok? { return root; }
    assert seen == Members(RawIds(raw));
    ReadIdsDistinct(raw, vocabulary);
    var controlled := CheckControlled(root.value, seen);
    r := match controlled
      case Ok(_) => root
      case UnknownRole(id, role) => UnknownRole(id, role)
      case UnknownState(id, state) => UnknownState(id, state)
      case DuplicateId(id) => DuplicateId(id)
      case UnknownControlled(id, target) => UnknownControlled(id, target);
  }
}
