/** Fixtures (crates/mockapp/src/fixture.rs): how a scripted tree is read, with
    its ids kept distinct, how the nodes that become real controls are taken
    out of it, and how it is laid out depth first in the arena. */
module Fixtures {
  import opened Basics
  import opened Arenas
  import opened Replacement

  datatype FixtureNode = FixtureNode(
    id: string,
    details: Details,
    states: set<State>,
    controllerFor: Option<string>,
    native: Option<string>,
    children: seq<FixtureNode>)

  /** The ids of a node and everything under it, depth first. */
  ghost function Ids(node: FixtureNode): seq<string>
    decreases node
  {
    [node.id] + IdsAll(node.children)
  }

  ghost function IdsAll(list: seq<FixtureNode>): seq<string>
    decreases list
  {
    if list == [] then [] else IdsAll(list[..|list| - 1]) + Ids(list[|list| - 1])
  }

  // ---- The layout of a fixture ----

  /** The arena's nodes for a fixture node and everything under it, the first
      at `base`; the relations between nodes are resolved later. */
  ghost function Laid(node: FixtureNode, parent: Option<nat>, base: nat): (r: seq<Node>)
    ensures |r| == |Ids(node)|
    decreases node
  {
    [Node(node.details, node.states, None, parent, LaidTops(node.children, base + 1), base, false, false)]
    + LaidAll(node.children, Some(base), base + 1)
  }

  ghost function LaidAll(list: seq<FixtureNode>, parent: Option<nat>, base: nat): (r: seq<Node>)
    ensures |r| == |IdsAll(list)|
    decreases list
  {
    if list == [] then []
    else
      var n := |list| - 1;
      LaidAll(list[..n], parent, base) + Laid(list[n], parent, base + |IdsAll(list[..n])|)
  }

  ghost function LaidTops(list: seq<FixtureNode>, base: nat): (r: seq<nat>)
    ensures |r| == |list|
    decreases list
  {
    if list == [] then []
    else LaidTops(list[..|list| - 1], base) + [base + |IdsAll(list[..|list| - 1])|]
  }

  /** Which laid-out node controls which fixture id. */
  ghost function Controls(node: FixtureNode, base: nat): seq<(nat, string)>
    decreases node
  {
    OwnControl(node, base) + ControlsAll(node.children, base + 1)
  }

  function OwnControl(node: FixtureNode, base: nat): seq<(nat, string)> {
    if node.controllerFor.Some? then [(base, node.controllerFor.value)] else []
  }

  ghost function ControlsAll(list: seq<FixtureNode>, base: nat): seq<(nat, string)>
    decreases list
  {
    if list == [] then []
    else
      var n := |list| - 1;
      ControlsAll(list[..n], base) + Controls(list[n], base + |IdsAll(list[..n])|)
  }

  // ---- One more child laid out ----

  lemma IdsSnoc(before: seq<FixtureNode>, last: FixtureNode)
    ensures IdsAll(before + [last]) == IdsAll(before) + Ids(last)
  {
    assert (before + [last])[..|before|] == before;
  }

  lemma LaidSnoc(before: seq<FixtureNode>, last: FixtureNode, parent: Option<nat>, base: nat)
    ensures var mid := base + |IdsAll(before)|;
            && LaidAll(before + [last], parent, base) == LaidAll(before, parent, base) + Laid(last, parent, mid)
            && LaidTops(before + [last], base) == LaidTops(before, base) + [mid]
  {
    assert (before + [last])[..|before|] == before;
  }

  lemma ControlsSnoc(before: seq<FixtureNode>, last: FixtureNode, base: nat)
    ensures ControlsAll(before + [last], base) == ControlsAll(before, base) + Controls(last, base + |IdsAll(before)|)
  {
    assert (before + [last])[..|before|] == before;
  }

  // ---- The layout is a tree ----

  /** `tops` are laid out under `parent`, in order. */
  ghost predicate TopsOk(laid: seq<Node>, tops: seq<nat>, parent: Option<nat>, base: nat) {
    && Increasing(tops)
    && forall j :: 0 <= j < |tops| ==>
         base <= tops[j] < base + |laid| && laid[tops[j] - base].parent == parent
  }

  ghost predicate PlaceOk(laid: seq<Node>, tops: seq<nat>, parent: Option<nat>, base: nat, k: nat)
    requires k < |laid|
  {
    var up := laid[k].parent;
    || (up == parent && base + k in tops)
    || (up.Some? && base <= up.value < base + k && base + k in laid[up.value - base].children)
  }

  ghost predicate FreshNode(node: Node, i: nat) {
    node.runtimeId == i && !node.dead && !node.diesAtFirstChild && node.controllerFor.None?
  }

  ghost predicate LaidNodeOk(laid: seq<Node>, tops: seq<nat>, parent: Option<nat>, base: nat, k: nat)
    requires k < |laid|
  {
    && TopsOk(laid, laid[k].children, Some(base + k), base)
    && PlaceOk(laid, tops, parent, base, k)
    && FreshNode(laid[k], base + k)
  }

  ghost predicate LaidOk(laid: seq<Node>, tops: seq<nat>, parent: Option<nat>, base: nat) {
    && TopsOk(laid, tops, parent, base)
    && forall k :: 0 <= k < |laid| ==> LaidNodeOk(laid, tops, parent, base, k)
  }

  lemma TopsOkLeft(p: seq<Node>, q: seq<Node>, tops: seq<nat>, parent: Option<nat>, base: nat)
    requires TopsOk(p, tops, parent, base)
    ensures TopsOk(p + q, tops, parent, base)
  {
  }

  lemma TopsOkRight(p: seq<Node>, q: seq<Node>, tops: seq<nat>, parent: Option<nat>, base: nat)
    requires TopsOk(q, tops, parent, base + |p|)
    ensures TopsOk(p + q, tops, parent, base)
  {
  }

  lemma TopsOkJoined(laid: seq<Node>, tp: seq<nat>, tq: seq<nat>, parent: Option<nat>, base: nat, mid: nat)
    requires TopsOk(laid, tp, parent, base) && TopsOk(laid, tq, parent, base)
    requires (forall j :: 0 <= j < |tp| ==> tp[j] < mid) && (forall j :: 0 <= j < |tq| ==> mid <= tq[j])
    ensures TopsOk(laid, tp + tq, parent, base)
  {
    var tops := tp + tq;
    forall i, j | 0 <= i < j < |tops| ensures tops[i] < tops[j] {
      if j >= |tp| { assert tops[j] == tq[j - |tp|]; }
      if i >= |tp| { assert tops[i] == tq[i - |tp|]; }
    }
  }

  lemma LaidNodeLeft(p: seq<Node>, tp: seq<nat>, q: seq<Node>, tq: seq<nat>, parent: Option<nat>, base: nat, k: nat)
    requires k < |p| && LaidNodeOk(p, tp, parent, base, k)
    ensures LaidNodeOk(p + q, tp + tq, parent, base, k)
  {
    TopsOkLeft(p, q, p[k].children, Some(base + k), base);
  }

  lemma LaidNodeRight(p: seq<Node>, tp: seq<nat>, q: seq<Node>, tq: seq<nat>, parent: Option<nat>, base: nat, k: nat)
    requires k < |q| && LaidNodeOk(q, tq, parent, base + |p|, k)
    ensures LaidNodeOk(p + q, tp + tq, parent, base, |p| + k)
  {
    TopsOkRight(p, q, q[k].children, Some(base + |p| + k), base);
    var up := q[k].parent;
    assert (p + q)[|p| + k] == q[k];
    if !(up == parent && base + |p| + k in tq) {
      assert (p + q)[up.value - base] == q[up.value - base - |p|];
    }
  }

  lemma LaidJoined(p: seq<Node>, tp: seq<nat>, q: seq<Node>, tq: seq<nat>, parent: Option<nat>, base: nat)
    requires LaidOk(p, tp, parent, base) && LaidOk(q, tq, parent, base + |p|)
    ensures LaidOk(p + q, tp + tq, parent, base)
  {
    TopsOkLeft(p, q, tp, parent, base);
    TopsOkRight(p, q, tq, parent, base);
    TopsOkJoined(p + q, tp, tq, parent, base, base + |p|);
    forall k | 0 <= k < |p + q| ensures LaidNodeOk(p + q, tp + tq, parent, base, k) {
      if k < |p| {
        LaidNodeLeft(p, tp, q, tq, parent, base, k);
      } else {
        LaidNodeRight(p, tp, q, tq, parent, base, k - |p|);
      }
    }
  }

  lemma LaidNodeBelow(node: Node, inner: seq<Node>, parent: Option<nat>, base: nat, k: nat)
    requires k < |inner| && LaidNodeOk(inner, node.children, Some(base), base + 1, k)
    ensures LaidNodeOk([node] + inner, [base], parent, base, k + 1)
  {
    var laid := [node] + inner;
    TopsOkRight([node], inner, inner[k].children, Some(base + 1 + k), base);
    var up := inner[k].parent;
    assert laid[k + 1] == inner[k];
    if up == Some(base) && base + 1 + k in node.children {
      assert laid[0] == node;
    } else {
      assert laid[up.value - base] == inner[up.value - base - 1];
    }
  }

  lemma LaidAbove(node: Node, inner: seq<Node>, parent: Option<nat>, base: nat)
    requires LaidOk(inner, node.children, Some(base), base + 1)
    requires node.parent == parent && FreshNode(node, base)
    ensures LaidOk([node] + inner, [base], parent, base)
  {
    var laid := [node] + inner;
    TopsOkRight([node], inner, node.children, Some(base), base);
    forall k | 0 <= k < |laid| ensures LaidNodeOk(laid, [base], parent, base, k) {
      if k > 0 { LaidNodeBelow(node, inner, parent, base, k - 1); }
    }
  }

  lemma {:induction false} LaidIsOk(node: FixtureNode, parent: Option<nat>, base: nat) returns (laid: seq<Node>)
    ensures laid == Laid(node, parent, base) && LaidOk(laid, [base], parent, base)
    decreases node
  {
    var inner, tops := LaidAllIsOk(node.children, Some(base), base + 1);
    var first := Node(node.details, node.states, None, parent, tops, base, false, false);
    LaidAbove(first, inner, parent, base);
    laid := [first] + inner;
  }

  lemma {:induction false} LaidAllIsOk(list: seq<FixtureNode>, parent: Option<nat>, base: nat)
    returns (laid: seq<Node>, tops: seq<nat>)
    ensures laid == LaidAll(list, parent, base) && tops == LaidTops(list, base)
    ensures LaidOk(laid, tops, parent, base)
    decreases list
  {
    if list == [] {
      laid, tops := [], [];
    } else {
      var n := |list| - 1;
      var before, first := LaidAllIsOk(list[..n], parent, base);
      var last := LaidIsOk(list[n], parent, base + |before|);
      LaidJoined(before, first, last, [base + |before|], parent, base);
      assert list == list[..n] + [list[n]];
      LaidSnoc(list[..n], list[n], parent, base);
      laid, tops := before + last, first + [base + |before|];
    }
  }

  /** A whole fixture is laid out as a tree of fresh nodes. */
  lemma LaidNodesOk(root: FixtureNode)
    ensures NodesOk(Laid(root, None, 0)) && DistinctIds(Laid(root, None, 0))
  {
    var nodes := LaidIsOk(root, None, 0);
    forall i | 0 <= i < |nodes| ensures NodeOk(nodes, i) {
      LaidNodeIsNodeOk(nodes, i);
    }
    forall i, j | 0 <= i < j < |nodes| ensures nodes[i].runtimeId != nodes[j].runtimeId {
      assert LaidNodeOk(nodes, [0], None, 0, i) && LaidNodeOk(nodes, [0], None, 0, j);
    }
  }

  lemma LaidNodeIsNodeOk(nodes: seq<Node>, i: nat)
    requires LaidOk(nodes, [0], None, 0) && i < |nodes|
    ensures NodeOk(nodes, i)
  {
    assert LaidNodeOk(nodes, [0], None, 0, i);
    var children := nodes[i].children;
    forall k | 0 <= k < |children| ensures children[k] < |nodes| && nodes[children[k]].parent == Some(i) {
      assert nodes[children[k] - 0].parent == Some(0 + i);
    }
  }

  // ---- Names and relations ----

  /** The names once `ids` name the nodes from `base` on. */
  ghost function NamesWith(names: map<string, nat>, ids: seq<string>, base: nat): map<string, nat> {
    if ids == [] then names
    else NamesWith(names, ids[..|ids| - 1], base)[ids[|ids| - 1] := base + |ids| - 1]
  }

  lemma {:induction false} NamesWithConcat(names: map<string, nat>, p: seq<string>, q: seq<string>, base: nat)
    ensures NamesWith(names, p + q, base) == NamesWith(NamesWith(names, p, base), q, base + |p|)
  {
    if q == [] {
      assert p + q == p;
    } else {
      var n := |q| - 1;
      NamesWithConcat(names, p, q[..n], base);
      assert (p + q)[..|p + q| - 1] == p + q[..n];
    }
  }

  /** Every name names a node laid out for it. */
  ghost predicate NameTheirs(names: map<string, nat>, ids: seq<string>) {
    forall id :: id in names ==> names[id] < |ids| && ids[names[id]] == id
  }

  lemma {:induction false} NamesNameTheirNodes(ids: seq<string>)
    ensures NameTheirs(NamesWith(map[], ids, 0), ids)
  {
    if ids != [] {
      var n := |ids| - 1;
      NamesNameTheirNodes(ids[..n]);
      var before, names := NamesWith(map[], ids[..n], 0), NamesWith(map[], ids, 0);
      assert names == before[ids[n] := n];
    }
  }

  /** Distinct ids name every node laid out for them. */
  lemma {:induction false} DistinctIdsNameAll(ids: seq<string>)
    requires Distinct(ids)
    ensures var names := NamesWith(map[], ids, 0);
            forall k :: 0 <= k < |ids| ==> ids[k] in names && names[ids[k]] == k
  {
    if ids != [] {
      var n := |ids| - 1;
      DistinctIdsNameAll(ids[..n]);
      assert forall k :: 0 <= k < n ==> ids[..n][k] == ids[k];
    }
  }

  /** The relations resolved, in order. */
  ghost function Resolved(nodes: seq<Node>, controls: seq<(nat, string)>, names: map<string, nat>): (r: seq<Node>)
    requires forall k :: 0 <= k < |controls| ==> controls[k].0 < |nodes|
    ensures |r| == |nodes|
  {
    if controls == [] then nodes
    else
      var n := |controls| - 1;
      var before := Resolved(nodes, controls[..n], names);
      var (i, id) := controls[n];
      before[i := before[i].(controllerFor := if id in names then Some(names[id]) else None)]
  }

  lemma {:induction false} ControlsWithin(node: FixtureNode, base: nat)
    ensures forall k :: 0 <= k < |Controls(node, base)| ==> base <= Controls(node, base)[k].0 < base + |Ids(node)|
    decreases node
  {
    ControlsAllWithin(node.children, base + 1);
  }

  lemma {:induction false} ControlsAllWithin(list: seq<FixtureNode>, base: nat)
    ensures forall k :: 0 <= k < |ControlsAll(list, base)| ==>
              base <= ControlsAll(list, base)[k].0 < base + |IdsAll(list)|
    decreases list
  {
    if list != [] {
      var n := |list| - 1;
      ControlsAllWithin(list[..n], base);
      ControlsWithin(list[n], base + |IdsAll(list[..n])|);
    }
  }

  lemma {:induction false} ResolvedOk(nodes: seq<Node>, controls: seq<(nat, string)>, names: map<string, nat>)
    requires forall k :: 0 <= k < |controls| ==> controls[k].0 < |nodes|
    requires NodesOk(nodes) && DistinctIds(nodes) && NamesOk(names, |nodes|)
    ensures NodesOk(Resolved(nodes, controls, names)) && DistinctIds(Resolved(nodes, controls, names))
  {
    if controls != [] {
      var n := |controls| - 1;
      ResolvedOk(nodes, controls[..n], names);
      var before := Resolved(nodes, controls[..n], names);
      var (i, id) := controls[n];
      ControllerSetOk(before, i, if id in names then Some(names[id]) else None);
    }
  }

  lemma ControllerSetOk(nodes: seq<Node>, i: nat, target: Option<nat>)
    requires NodesOk(nodes) && DistinctIds(nodes) && i < |nodes| && Within(target, |nodes|)
    ensures NodesOk(nodes[i := nodes[i].(controllerFor := target)])
    ensures DistinctIds(nodes[i := nodes[i].(controllerFor := target)])
  {
    var after := nodes[i := nodes[i].(controllerFor := target)];
    forall j | 0 <= j < |after| ensures NodeOk(after, j) {
      assert NodeOk(nodes, j);
    }
  }

  /** Where a state first stands among some nodes. */
  ghost predicate FirstFocused(nodes: seq<Node>, focused: Option<nat>) {
    match focused
    case None => forall i :: 0 <= i < |nodes| ==> Focused !in nodes[i].states
    case Some(i) => i < |nodes| && Focused in nodes[i].states && forall j :: 0 <= j < i ==> Focused !in nodes[j].states
  }

  /** The arena `build` makes of a fixture. */
  ghost predicate Built(root: FixtureNode, a: Arena) {
    && (forall k :: 0 <= k < |Controls(root, 0)| ==> Controls(root, 0)[k].0 < |Ids(root)|)
    && a.nodes == Resolved(Laid(root, None, 0), Controls(root, 0), a.names)
    && a.names == NamesWith(map[], Ids(root), 0)
    && FirstFocused(a.nodes, a.focused) && a.selected == None
  }

  /** Every live node has a fixture id. */
  ghost predicate AllNamed(a: Arena) {
    forall i: nat :: i < |a.nodes| && !a.nodes[i].dead ==> Named(a.names, i)
  }

  ghost predicate Named(names: map<string, nat>, i: nat) {
    exists name :: name in names && names[name] == i
  }

  /** What is built of a fixture is a tree whose nodes have runtime ids of their
      own; with distinct fixture ids, the `k`-th of them, depth first, names the
      `k`-th node. */
  lemma BuiltIsTree(root: FixtureNode, a: Arena)
    requires Built(root, a)
    ensures Tree(a) && DistinctIds(a.nodes) && |a.nodes| == |Ids(root)|
    ensures Distinct(Ids(root)) ==>
              AllNamed(a) && forall k :: 0 <= k < |Ids(root)| ==>
                               Ids(root)[k] in a.names && a.names[Ids(root)[k]] == k
  {
    var ids := Ids(root);
    LaidNodesOk(root);
    NamesNameTheirNodes(ids);
    assert NamesOk(a.names, |ids|);
    ResolvedOk(Laid(root, None, 0), Controls(root, 0), a.names);
    if Distinct(ids) {
      DistinctIdsNameAll(ids);
      forall i: nat | i < |a.nodes| ensures Named(a.names, i) {
        assert ids[i] in a.names && a.names[ids[i]] == i;
      }
    }
  }
}
