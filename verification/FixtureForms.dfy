/** What a fixture is read as and what arena is built of it
    (crates/mockapp/src/fixture.rs, crates/mockapp/src/tree.rs), field by field. */
module FixtureForms {
  import opened Basics
  import opened Arenas
  import opened Fixtures
  import opened FixtureReading
  import opened NativeControls
  import Decimal

  // ---- Reading ----

  /** `node` is groups `<id>-nest-<from>` to `<id>-nest-<to>`, each in the one before,
      and `inner` in the last. */
  ghost predicate NestedIn(node: FixtureNode, id: string, from: nat, to: nat, inner: FixtureNode)
    decreases node
  {
    if from > to then node == inner
    else
      && node.id == id + "-nest-" + Decimal.Digits(from)
      && node.details == Details("group", Some("Nest " + Decimal.Digits(from)), None, None, None)
      && node.states == {} && node.controllerFor == None && node.native == None
      && |node.children| == 1 && NestedIn(node.children[0], id, from + 1, to, inner)
  }

  /** `node` has the fields of `raw`, under its groups, and its children are those of
      `raw`, read. */
  ghost predicate ReadsAs(raw: RawNode, vocabulary: Vocabulary, node: FixtureNode)
    decreases raw
  {
    exists inner :: NestedIn(node, raw.id, 1, raw.nested, inner) && FieldsOf(raw, vocabulary, inner)
                    && |inner.children| == |raw.children|
                    && forall k :: 0 <= k < |raw.children| ==> ReadsAs(raw.children[k], vocabulary, inner.children[k])
  }

  ghost predicate FieldsOf(raw: RawNode, vocabulary: Vocabulary, node: FixtureNode) {
    && node.id == raw.id && node.details.role == raw.role && node.details.name == raw.name
    && node.details.value == raw.value && node.details.description == raw.description && node.details.text == raw.text
    && node.controllerFor == raw.controllerFor && node.native == raw.native
    && forall state :: state in node.states <==>
         exists k :: 0 <= k < |raw.states| && raw.states[k] in vocabulary.states && vocabulary.states[raw.states[k]] == state
  }

  lemma {:induction false} NestedMore(node: FixtureNode, id: string, from: nat, to: nat, group: FixtureNode, inner: FixtureNode)
    requires from <= to + 1 && NestedIn(node, id, from, to, group) && group == Group(id, to + 1, inner)
    ensures NestedIn(node, id, from, to + 1, inner)
    decreases node
  {
    if from <= to { NestedMore(node.children[0], id, from + 1, to, group, inner); }
  }

  lemma {:induction false} WrappedNests(node: FixtureNode, id: string, level: nat)
    ensures NestedIn(Wrapped(node, id, level), id, 1, level, node)
    decreases level
  {
    if level > 0 {
      var group := Group(id, level, node);
      WrappedNests(group, id, level - 1);
      NestedMore(Wrapped(group, id, level - 1), id, 1, level - 1, group, node);
    }
  }

  /** What a fixture is read as has its fields, its children and its groups. */
  lemma {:induction false} ShapedReads(raw: RawNode, vocabulary: Vocabulary)
    ensures ReadsAs(raw, vocabulary, Shaped(raw, vocabulary))
    decreases raw
  {
    var inner := FixtureNode(raw.id, Details(raw.role, raw.name, raw.value, raw.description, raw.text),
                             StatesOf(raw.states, vocabulary), raw.controllerFor, raw.native,
                             ShapedAll(raw.children, vocabulary));
    WrappedNests(inner, raw.id, raw.nested);
    ShapedEach(raw.children, vocabulary);
    forall k | 0 <= k < |raw.children| ensures ReadsAs(raw.children[k], vocabulary, inner.children[k]) {
      ShapedReads(raw.children[k], vocabulary);
    }
  }

  lemma {:induction false} ShapedEach(list: seq<RawNode>, vocabulary: Vocabulary)
    ensures |ShapedAll(list, vocabulary)| == |list|
    ensures forall k :: 0 <= k < |list| ==> ShapedAll(list, vocabulary)[k] == Shaped(list[k], vocabulary)
    decreases |list|
  {
    if list != [] { ShapedEach(list[..|list| - 1], vocabulary); }
  }

  /** Every node of a file, depth first. */
  ghost function RawFlat(raw: RawNode): seq<RawNode>
    decreases raw
  {
    [raw] + RawFlatAll(raw.children)
  }

  ghost function RawFlatAll(list: seq<RawNode>): seq<RawNode>
    decreases list
  {
    if list == [] then [] else RawFlatAll(list[..|list| - 1]) + RawFlat(list[|list| - 1])
  }

  ghost predicate Known(raw: RawNode, vocabulary: Vocabulary) {
    raw.role in vocabulary.roles && forall i :: 0 <= i < |raw.states| ==> raw.states[i] in vocabulary.states
  }

  ghost predicate AllKnown(list: seq<RawNode>, vocabulary: Vocabulary) {
    forall i :: 0 <= i < |list| ==> Known(list[i], vocabulary)
  }

  lemma AllKnownSum(a: seq<RawNode>, b: seq<RawNode>, vocabulary: Vocabulary)
    ensures AllKnown(a + b, vocabulary) <==> AllKnown(a, vocabulary) && AllKnown(b, vocabulary)
  {
    var both := a + b;
    assert forall i :: 0 <= i < |a| ==> both[i] == a[i];
    assert forall i :: 0 <= i < |b| ==> both[|a| + i] == b[i];
  }

  /** A file can be read exactly when the role and the states of every node of it are
      known. */
  lemma {:induction false} ReadableMeans(raw: RawNode, vocabulary: Vocabulary)
    ensures Readable(raw, vocabulary) <==> AllKnown(RawFlat(raw), vocabulary)
    decreases raw
  {
    ReadableAllMeans(raw.children, vocabulary);
    AllKnownSum([raw], RawFlatAll(raw.children), vocabulary);
    assert AllKnown([raw], vocabulary) <==> Known(raw, vocabulary) by { assert [raw][0] == raw; }
  }

  lemma {:induction false} ReadableAllMeans(list: seq<RawNode>, vocabulary: Vocabulary)
    ensures ReadableAll(list, vocabulary) <==> AllKnown(RawFlatAll(list), vocabulary)
    decreases list
  {
    if list != [] {
      var n := |list| - 1;
      ReadableAllMeans(list[..n], vocabulary);
      ReadableMeans(list[n], vocabulary);
      AllKnownSum(RawFlatAll(list[..n]), RawFlat(list[n]), vocabulary);
    }
  }

  ghost predicate AllControlled(flat: seq<FixtureNode>, ids: set<string>) {
    forall i :: 0 <= i < |flat| ==> (flat[i].controllerFor.Some? ==> flat[i].controllerFor.value in ids)
  }

  lemma AllControlledSum(a: seq<FixtureNode>, b: seq<FixtureNode>, ids: set<string>)
    ensures AllControlled(a + b, ids) <==> AllControlled(a, ids) && AllControlled(b, ids)
  {
    var both := a + b;
    assert forall i :: 0 <= i < |a| ==> both[i] == a[i];
    assert forall i :: 0 <= i < |b| ==> both[|a| + i] == b[i];
  }

  /** Its relations resolve exactly when that of every node does. */
  lemma {:induction false} ControlledMeans(node: FixtureNode, ids: set<string>)
    ensures ControlledIn(node, ids) <==> AllControlled(Flat(node), ids)
    decreases node
  {
    ControlledEach(node.children, ids);
    AllControlledSum([Alone(node)], FlatAll(node.children), ids);
    assert [Alone(node)][0].controllerFor == node.controllerFor;
  }

  lemma {:induction false} ControlledEach(list: seq<FixtureNode>, ids: set<string>)
    ensures (forall i :: 0 <= i < |list| ==> ControlledIn(list[i], ids)) <==> AllControlled(FlatAll(list), ids)
    decreases list
  {
    if list != [] {
      var n := |list| - 1;
      var before := list[..n];
      ControlledEach(before, ids);
      ControlledMeans(list[n], ids);
      AllControlledSum(FlatAll(before), Flat(list[n]), ids);
      assert forall i :: 0 <= i < n ==> before[i] == list[i];
    }
  }

  // ---- Building ----

  /** The arena has, at the place of each fixture node depth first, that node. */
  ghost predicate SameNode(node: FixtureNode, place: nat, names: map<string, nat>, built: Node) {
    && built.details == node.details && built.states == node.states && built.runtimeId == place
    && !built.dead && !built.diesAtFirstChild
    && built.controllerFor == match node.controllerFor
                              case None => None
                              case Some(id) => if id in names then Some(names[id]) else None
  }

  /** The node at `at` is that of `node`: its parent, and its children where theirs
      are, each after everything under the one before. */
  ghost predicate Stands(nodes: seq<Node>, node: FixtureNode, at: nat, parent: Option<nat>)
    decreases node
  {
    && at < |nodes| && nodes[at].parent == parent && |nodes[at].children| == |node.children|
    && forall k :: 0 <= k < |node.children| ==>
         && nodes[at].children[k] == at + 1 + |FlatAll(node.children[..k])|
         && Stands(nodes, node.children[k], nodes[at].children[k], Some(at))
  }

  lemma {:induction false} FlatIds(node: FixtureNode)
    ensures |Flat(node)| == |Ids(node)| && forall i :: 0 <= i < |Ids(node)| ==> Flat(node)[i].id == Ids(node)[i]
    decreases node
  {
    FlatAllIds(node.children);
  }

  lemma {:induction false} FlatAllIds(list: seq<FixtureNode>)
    ensures |FlatAll(list)| == |IdsAll(list)|
    ensures forall i :: 0 <= i < |IdsAll(list)| ==> FlatAll(list)[i].id == IdsAll(list)[i]
    decreases list
  {
    if list != [] {
      var n := |list| - 1;
      FlatAllIds(list[..n]);
      FlatIds(list[n]);
    }
  }

  ghost predicate LaidAs(flat: seq<FixtureNode>, base: nat, laid: seq<Node>) {
    && |laid| == |flat|
    && forall i :: 0 <= i < |laid| ==>
         && laid[i].details == flat[i].details && laid[i].states == flat[i].states && laid[i].runtimeId == base + i
         && !laid[i].dead && !laid[i].diesAtFirstChild && laid[i].controllerFor == None
  }

  lemma LaidAsSum(a: seq<FixtureNode>, b: seq<FixtureNode>, base: nat, p: seq<Node>, q: seq<Node>)
    requires LaidAs(a, base, p) && LaidAs(b, base + |a|, q)
    ensures LaidAs(a + b, base, p + q)
  {
    forall i | |p| <= i < |p + q| ensures (p + q)[i] == q[i - |p|] && (a + b)[i] == b[i - |a|] { }
  }

  lemma {:induction false} LaidFields(node: FixtureNode, parent: Option<nat>, base: nat)
    ensures LaidAs(Flat(node), base, Laid(node, parent, base))
    decreases node
  {
    LaidAllFields(node.children, Some(base), base + 1);
    var top := Node(node.details, node.states, None, parent, LaidTops(node.children, base + 1), base, false, false);
    LaidAsSum([Alone(node)], FlatAll(node.children), base, [top], LaidAll(node.children, Some(base), base + 1));
  }

  lemma {:induction false} LaidAllFields(list: seq<FixtureNode>, parent: Option<nat>, base: nat)
    ensures LaidAs(FlatAll(list), base, LaidAll(list, parent, base))
    decreases list
  {
    if list != [] {
      var before, last := list[..|list| - 1], list[|list| - 1];
      var mid := base + |IdsAll(before)|;
      LaidAllFields(before, parent, base);
      LaidFields(last, parent, mid);
      LaidFieldsStep(before, last, parent, base, mid);
      assert list == before + [last];
    }
  }

  lemma LaidFieldsStep(before: seq<FixtureNode>, last: FixtureNode, parent: Option<nat>, base: nat, mid: nat)
    requires mid == base + |IdsAll(before)|
    requires LaidAs(FlatAll(before), base, LaidAll(before, parent, base)) && LaidAs(Flat(last), mid, Laid(last, parent, mid))
    ensures LaidAs(FlatAll(before + [last]), base, LaidAll(before + [last], parent, base))
  {
    LaidAsSum(FlatAll(before), Flat(last), base, LaidAll(before, parent, base), Laid(last, parent, mid));
    LaidSnoc(before, last, parent, base);
    FlatSnoc(before, last);
  }

  // Relations

  /** The relations of the nodes of `flat`, the first of them at `base`. */
  ghost predicate ControlsOf(flat: seq<FixtureNode>, base: nat, controls: seq<(nat, string)>) {
    forall j, id :: (j, id) in controls <==>
      base <= j < base + |flat| && flat[j - base].controllerFor == Some(id)
  }

  lemma ControlsOfSum(a: seq<FixtureNode>, b: seq<FixtureNode>, base: nat, p: seq<(nat, string)>, q: seq<(nat, string)>)
    requires ControlsOf(a, base, p) && ControlsOf(b, base + |a|, q)
    ensures ControlsOf(a + b, base, p + q)
  {
    forall j, id ensures (j, id) in p + q <==> base <= j < base + |a + b| && (a + b)[j - base].controllerFor == Some(id) {
      assert (j, id) in p + q <==> (j, id) in p || (j, id) in q;
    }
  }

  lemma {:induction false} ControlsAre(node: FixtureNode, base: nat)
    ensures ControlsOf(Flat(node), base, Controls(node, base))
    decreases node
  {
    ControlsAllAre(node.children, base + 1);
    assert ControlsOf([Alone(node)], base, OwnControl(node, base));
    ControlsOfSum([Alone(node)], FlatAll(node.children), base, OwnControl(node, base), ControlsAll(node.children, base + 1));
  }

  lemma {:induction false} ControlsAllAre(list: seq<FixtureNode>, base: nat)
    ensures ControlsOf(FlatAll(list), base, ControlsAll(list, base))
    decreases list
  {
    if list != [] {
      var before, last := list[..|list| - 1], list[|list| - 1];
      var mid := base + |IdsAll(before)|;
      ControlsAllAre(before, base);
      ControlsAre(last, mid);
      FlatAllIds(before);
      ControlsOfSum(FlatAll(before), Flat(last), base, ControlsAll(before, base), Controls(last, mid));
      assert list == before + [last];
      ControlsSnoc(before, last, base);
      FlatSnoc(before, last);
    }
  }

  /** What is resolved for node `j`, when every relation of it is to `id`. */
  lemma {:induction false} ResolvedAt(nodes: seq<Node>, controls: seq<(nat, string)>, names: map<string, nat>, j: nat, id: string)
    requires forall k :: 0 <= k < |controls| ==> controls[k].0 < |nodes|
    requires j < |nodes| && forall k :: 0 <= k < |controls| && controls[k].0 == j ==> controls[k].1 == id
    ensures Resolved(nodes, controls, names)[j] ==
            if exists k :: 0 <= k < |controls| && controls[k].0 == j
            then nodes[j].(controllerFor := if id in names then Some(names[id]) else None) else nodes[j]
    decreases |controls|
  {
    if controls != [] {
      var n := |controls| - 1;
      ResolvedAt(nodes, controls[..n], names, j, id);
    }
  }

  lemma ResolvedNode(nodes: seq<Node>, flat: seq<FixtureNode>, controls: seq<(nat, string)>, names: map<string, nat>, j: nat)
    requires forall k :: 0 <= k < |controls| ==> controls[k].0 < |nodes|
    requires LaidAs(flat, 0, nodes) && ControlsOf(flat, 0, controls) && j < |nodes|
    ensures SameNode(flat[j], j, names, Resolved(nodes, controls, names)[j])
  {
    var id := if flat[j].controllerFor.Some? then flat[j].controllerFor.value else "";
    assert forall k :: 0 <= k < |controls| && controls[k].0 == j ==> (j, controls[k].1) in controls;
    assert flat[j].controllerFor.Some? ==> (j, id) in controls;
    ResolvedAt(nodes, controls, names, j, id);
  }

  // Places

  /** `nodes` have, from `base` on, the parents and children of `laid`. */
  ghost predicate Placed(nodes: seq<Node>, base: nat, laid: seq<Node>) {
    && base + |laid| <= |nodes|
    && forall i :: 0 <= i < |laid| ==> nodes[base + i].parent == laid[i].parent && nodes[base + i].children == laid[i].children
  }

  lemma {:induction false} TopsAt(list: seq<FixtureNode>, base: nat, k: nat)
    requires k < |list|
    ensures LaidTops(list, base)[k] == base + |IdsAll(list[..k])|
    decreases |list|
  {
    var n := |list| - 1;
    if k < n {
      TopsAt(list[..n], base, k);
      assert list[..n][..k] == list[..k];
    }
  }

  /** What is laid out for one of some nodes is part of what is for all. */
  lemma {:induction false} PlacedChild(nodes: seq<Node>, list: seq<FixtureNode>, parent: Option<nat>, base: nat, k: nat)
    requires k < |list| && Placed(nodes, base, LaidAll(list, parent, base))
    ensures var at := base + |IdsAll(list[..k])|; Placed(nodes, at, Laid(list[k], parent, at))
    decreases |list|
  {
    var before, last := list[..|list| - 1], list[|list| - 1];
    var mid := base + |IdsAll(before)|;
    assert list == before + [last];
    PlacedStep(nodes, before, last, parent, base, mid);
    if k < |before| {
      PlacedChild(nodes, before, parent, base, k);
      assert before[..k] == list[..k];
    }
  }

  lemma PlacedStep(nodes: seq<Node>, before: seq<FixtureNode>, last: FixtureNode, parent: Option<nat>, base: nat, mid: nat)
    requires mid == base + |IdsAll(before)| && Placed(nodes, base, LaidAll(before + [last], parent, base))
    ensures Placed(nodes, base, LaidAll(before, parent, base)) && Placed(nodes, mid, Laid(last, parent, mid))
  {
    LaidSnoc(before, last, parent, base);
    PlacedParts(nodes, base, LaidAll(before, parent, base), Laid(last, parent, mid));
  }

  lemma PlacedParts(nodes: seq<Node>, base: nat, p: seq<Node>, q: seq<Node>)
    requires Placed(nodes, base, p + q)
    ensures Placed(nodes, base, p) && Placed(nodes, base + |p|, q)
  {
    var all := p + q;
    assert forall i :: 0 <= i < |p| ==> all[i] == p[i];
    forall i | 0 <= i < |q|
      ensures nodes[base + |p| + i].parent == q[i].parent && nodes[base + |p| + i].children == q[i].children
    {
      assert all[|p| + i] == q[i];
      assert nodes[base + (|p| + i)].parent == all[|p| + i].parent;
    }
  }

  lemma PlacedBelow(nodes: seq<Node>, node: FixtureNode, parent: Option<nat>, at: nat)
    requires Placed(nodes, at, Laid(node, parent, at))
    ensures at < |nodes| && nodes[at].parent == parent && nodes[at].children == LaidTops(node.children, at + 1)
    ensures Placed(nodes, at + 1, LaidAll(node.children, Some(at), at + 1))
  {
    var laid, below := Laid(node, parent, at), LaidAll(node.children, Some(at), at + 1);
    assert nodes[at + 0].parent == laid[0].parent && nodes[at + 0].children == laid[0].children;
    forall i | 0 <= i < |below|
      ensures nodes[at + 1 + i].parent == below[i].parent && nodes[at + 1 + i].children == below[i].children
    {
      assert laid[i + 1] == below[i];
      assert nodes[at + (i + 1)].parent == laid[i + 1].parent;
    }
  }

  lemma {:induction false} PlacedStands(nodes: seq<Node>, node: FixtureNode, parent: Option<nat>, at: nat)
    requires Placed(nodes, at, Laid(node, parent, at))
    ensures Stands(nodes, node, at, parent)
    decreases node
  {
    PlacedBelow(nodes, node, parent, at);
    forall k | 0 <= k < |node.children|
      ensures nodes[at].children[k] == at + 1 + |FlatAll(node.children[..k])|
      ensures Stands(nodes, node.children[k], nodes[at].children[k], Some(at))
    {
      TopsAt(node.children, at + 1, k);
      FlatAllIds(node.children[..k]);
      PlacedChild(nodes, node.children, Some(at), at + 1, k);
      PlacedStands(nodes, node.children[k], Some(at), at + 1 + |IdsAll(node.children[..k])|);
    }
  }

  lemma {:induction false} ResolvedPlaces(nodes: seq<Node>, controls: seq<(nat, string)>, names: map<string, nat>)
    requires forall k :: 0 <= k < |controls| ==> controls[k].0 < |nodes|
    ensures Placed(Resolved(nodes, controls, names), 0, nodes)
    decreases |controls|
  {
    if controls != [] { ResolvedPlaces(nodes, controls[..|controls| - 1], names); }
  }

  // Focus and names

  /** The first node whose states say it has the focus, or none. */
  ghost predicate Focusing(flat: seq<FixtureNode>, focused: Option<nat>) {
    && (focused.None? <==> forall i :: 0 <= i < |flat| ==> Focused !in flat[i].states)
    && (focused.Some? ==> && focused.value < |flat| && Focused in flat[focused.value].states
                          && forall i :: 0 <= i < focused.value ==> Focused !in flat[i].states)
  }

  lemma FocusMeans(flat: seq<FixtureNode>, nodes: seq<Node>, names: map<string, nat>, focused: Option<nat>)
    requires |nodes| == |flat| && FirstFocused(nodes, focused)
    requires forall i :: 0 <= i < |nodes| ==> SameNode(flat[i], i, names, nodes[i])
    ensures Focusing(flat, focused)
  {
    assert forall i :: 0 <= i < |nodes| ==> nodes[i].states == flat[i].states;
  }

  /** Each id names the last node that has it, and no other id names any. */
  ghost predicate NamesLast(flat: seq<FixtureNode>, names: map<string, nat>) {
    && (forall id :: id in names ==> names[id] < |flat| && flat[names[id]].id == id)
    && (forall i :: 0 <= i < |flat| ==> flat[i].id in names && i <= names[flat[i].id])
  }

  ghost predicate LastAmong(ids: seq<string>, names: map<string, nat>) {
    NameTheirs(names, ids) && forall i :: 0 <= i < |ids| ==> ids[i] in names && i <= names[ids[i]]
  }

  lemma {:induction false} LastNamed(ids: seq<string>)
    ensures LastAmong(ids, NamesWith(map[], ids, 0))
  {
    if ids != [] {
      var n := |ids| - 1;
      var before := ids[..n];
      LastNamed(before);
      var names := NamesWith(map[], before, 0);
      assert NamesWith(map[], ids, 0) == names[ids[n] := n];
      assert forall i :: 0 <= i < n ==> before[i] == ids[i];
    }
  }

  lemma NamesOfFlat(flat: seq<FixtureNode>, ids: seq<string>, names: map<string, nat>)
    requires |flat| == |ids| && (forall i :: 0 <= i < |ids| ==> flat[i].id == ids[i]) && LastAmong(ids, names)
    ensures NamesLast(flat, names)
  {
  }

  /** The arena built of a fixture has its nodes depth first, each with its fields and
      its relation, its parent and its children where they are. */
  lemma BuiltMeans(root: FixtureNode, a: Arena)
    requires Built(root, a)
    ensures |a.nodes| == |Flat(root)| && Stands(a.nodes, root, 0, None)
    ensures a.selected == None && Focusing(Flat(root), a.focused) && NamesLast(Flat(root), a.names)
    ensures forall i :: 0 <= i < |a.nodes| ==> SameNode(Flat(root)[i], i, a.names, a.nodes[i])
  {
    var laid, controls := Laid(root, None, 0), Controls(root, 0);
    LaidFields(root, None, 0);
    ControlsAre(root, 0);
    forall i | 0 <= i < |a.nodes| ensures SameNode(Flat(root)[i], i, a.names, a.nodes[i]) {
      ResolvedNode(laid, Flat(root), controls, a.names, i);
    }
    ResolvedPlaces(laid, controls, a.names);
    PlacedStands(a.nodes, root, None, 0);
    FocusMeans(Flat(root), a.nodes, a.names, a.focused);
    FlatIds(root);
    LastNamed(Ids(root));
    NamesOfFlat(Flat(root), Ids(root), a.names);
  }
}
