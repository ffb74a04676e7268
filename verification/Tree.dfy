/** The owned, mutable scripted tree of mockapp (crates/mockapp/src/tree.rs):
    an arena changed in place by the commands, each method proved against the
    functions of `TreeCommands`. */
module Trees {
  import opened Basics
  import opened Arenas
  import opened Replacement
  import opened Fixtures
  import opened TreeCommands

  datatype Reply = Done | Unknown(id: string) | Refused

  /** The children lists of the tree `nodes` are still those of `current`. */
  ghost predicate SameLists(nodes: seq<Node>, current: seq<Node>) {
    |nodes| <= |current| && forall i :: 0 <= i < |nodes| ==> current[i].children == nodes[i].children
  }

  /** The part of `replace` before it goes on to the children. */
  ghost function Retargeted(node: Node, from: nat, to: nat): Node {
    node.(controllerFor := if node.controllerFor == Some(from) then Some(to) else node.controllerFor)
  }

  /** A childless copy of node `index` is pushed and the original dies; relations
      to it go to the copy. */
  ghost predicate CopyPushed(nodes: seq<Node>, index: nat, parent: nat, more: seq<Node>)
    requires index < |nodes|
  {
    var copy := |nodes|;
    && |more| == copy + 1
    && (forall i :: 0 <= i < copy ==>
          more[i] == Retargeted(nodes[i], index, copy).(dead := nodes[i].dead || i == index))
    && more[copy] == Retargeted(nodes[index], index, copy).(parent := Some(parent), runtimeId := copy, children := [])
  }

  lemma CopyOneForm(a: Arena, index: nat, parent: nat, r: Arena)
    requires index < |a.nodes| && CopyPushed(a.nodes, index, parent, r.nodes)
    requires var copy := |a.nodes|;
             && r.names == (map name | name in a.names :: if a.names[name] == index then copy else a.names[name])
             && r.focused == (if a.focused == Some(index) then Some(copy) else a.focused)
             && r.selected == (if a.selected == Some(index) then Some(copy) else a.selected)
    ensures PlanFor(Plan([index], [parent], [[]]), |a.nodes|)
    ensures r == Copied(a, Plan([index], [parent], [[]]))
  {
    var copy, plan := |a.nodes|, Plan([index], [parent], [[]]);
    assert forall x: nat :: Renamed([index], copy, x) == if x == index then copy else x;
    assert r.nodes == CopiedNodes(a.nodes, plan);
    assert r.names == RenamedNames(a.names, [index], copy);
  }

  lemma SameListsCopied(nodes: seq<Node>, a: Arena, plan: Plan)
    requires SameLists(nodes, a.nodes) && PlanFor(plan, |a.nodes|)
    ensures SameLists(nodes, Copied(a, plan).nodes)
  {
  }

  lemma PlansBounded(nodes: seq<Node>, index: nat, list: seq<nat>, parent: nat, base: nat)
    requires NodesOk(nodes) && index < |nodes| && Between(list, index, |nodes|)
    ensures Downward(ChildLists(nodes))
    ensures PlanFor(PlanOf(ChildLists(nodes), index, parent, base), |nodes|)
    ensures PlanFor(PlanAll(ChildLists(nodes), list, index, parent, base), |nodes|)
  {
    var lists := ChildLists(nodes);
    ListsDownward(nodes);
    var one := PlanOfSound(lists, index, parent, base);
    var all, tops := PlanAllSound(lists, list, index, parent, base);
    forall k | 0 <= k < |one.dying| ensures one.dying[k] < |nodes| {
      assert CopySound(lists, one, [base], parent, base, k);
    }
    forall k | 0 <= k < |all.dying| ensures all.dying[k] < |nodes| {
      assert CopySound(lists, all, tops, parent, base, k);
    }
  }

  lemma PreorderOnce(nodes: seq<Node>, index: nat)
    requires NodesOk(nodes) && index < |nodes|
    ensures Downward(ChildLists(nodes)) && Between(nodes[index].children, index, |nodes|)
    ensures Distinct(PreorderAll(ChildLists(nodes), nodes[index].children, index))
  {
    ListsDownward(nodes);
    var lists, children := ChildLists(nodes), nodes[index].children;
    assert Between(lists[index], index, |nodes|);
    var plan, tops := PlanAllSound(lists, children, index, index, |nodes|);
    PlanAllPreorder(lists, children, index, index, |nodes|);
    PlanKillsBelow(nodes, plan, tops, index);
  }

  lemma PartsApart(whole: seq<nat>, first: seq<nat>, next: seq<nat>)
    requires Distinct(whole) && first + next <= whole
    ensures forall x :: x in next ==> x !in first
  {
    forall x | x in next ensures x !in first {
      var j :| 0 <= j < |next| && next[j] == x;
      assert whole[|first| + j] == (first + next)[|first| + j] == x;
      forall i | 0 <= i < |first| ensures first[i] != x {
        assert whole[i] == (first + next)[i] == first[i];
      }
    }
  }

  /** The subtrees of siblings do not meet. */
  lemma SiblingsApart(nodes: seq<Node>, index: nat, k: nat)
    requires NodesOk(nodes) && index < |nodes| && k < |nodes[index].children|
    ensures Downward(ChildLists(nodes)) && Between(nodes[index].children, index, |nodes|)
    ensures var lists, children := ChildLists(nodes), nodes[index].children;
            forall x :: x in Preorder(lists, children[k]) ==> x !in PreorderAll(lists, children[..k], index)
  {
    PreorderOnce(nodes, index);
    var lists, children := ChildLists(nodes), nodes[index].children;
    PreorderPrefix(lists, children, index, k + 1);
    assert children[..k + 1][..k] == children[..k];
    PartsApart(PreorderAll(lists, children, index),
               PreorderAll(lists, children[..k], index), Preorder(lists, children[k]));
  }

  /** No node is in the plans of two siblings. */
  lemma PlansApart(start: seq<Node>, index: nat, k: nat, copy: nat, base: nat, mid: nat)
    requires NodesOk(start) && index < |start| && k < |start[index].children|
    requires Downward(ChildLists(start)) && Between(start[index].children, index, |start|)
    ensures var lists, children := ChildLists(start), start[index].children;
            forall x :: x in PlanOf(lists, children[k], copy, mid).dying ==>
              x !in PlanAll(lists, children[..k], index, copy, base).dying
  {
    var lists, children := ChildLists(start), start[index].children;
    SiblingsApart(start, index, k);
    PlanAllPreorder(lists, children[..k], index, copy, base);
    PlanOfPreorder(lists, children[k], copy, mid);
  }

  /** One more child replaced is one more part of the plan. */
  lemma ReplaceStep(start: seq<Node>, index: nat, k: nat, copy: nat, a: Arena, now: Arena)
    requires NodesOk(start) && index < |start| <= |a.nodes| && k < |start[index].children|
    requires Downward(ChildLists(start)) && Between(start[index].children, index, |start|)
    requires var before := PlanAll(ChildLists(start), start[index].children[..k], index, copy, |a.nodes|);
             PlanFor(before, |a.nodes|) && now == Copied(a, before)
    ensures var lists, children := ChildLists(start), start[index].children;
            var one := PlanOf(lists, children[k], copy, |now.nodes|);
            var all := PlanAll(lists, children[..k + 1], index, copy, |a.nodes|);
            && PlanFor(one, |now.nodes|) && PlanFor(all, |a.nodes|)
            && Copied(now, one) == Copied(a, all)
            && Tops(lists, children[..k + 1], index, copy, |a.nodes|)
               == Tops(lists, children[..k], index, copy, |a.nodes|) + [|now.nodes|]
  {
    var lists, children := ChildLists(start), start[index].children;
    var before := PlanAll(lists, children[..k], index, copy, |a.nodes|);
    var one := PlanOf(lists, children[k], copy, |now.nodes|);
    StepPlans(start, index, k, copy, |a.nodes|, |now.nodes|);
    CopiedJoined(a, before, one);
  }

  lemma StepPlans(start: seq<Node>, index: nat, k: nat, copy: nat, base: nat, mid: nat)
    requires NodesOk(start) && index < |start| <= base <= mid && k < |start[index].children|
    requires Downward(ChildLists(start)) && Between(start[index].children, index, |start|)
    requires mid == base + |PlanAll(ChildLists(start), start[index].children[..k], index, copy, base).dying|
    ensures var lists, children := ChildLists(start), start[index].children;
            var before, one := PlanAll(lists, children[..k], index, copy, base), PlanOf(lists, children[k], copy, mid);
            var all := PlanAll(lists, children[..k + 1], index, copy, base);
            && PlanFor(one, base) && PlanFor(one, mid) && PlanFor(all, base) && all == Joined(before, one)
            && (forall x :: x in one.dying ==> x !in before.dying)
            && Tops(lists, children[..k + 1], index, copy, base) == Tops(lists, children[..k], index, copy, base) + [mid]
  {
    var lists, children := ChildLists(start), start[index].children;
    var before, one := PlanAll(lists, children[..k], index, copy, base), PlanOf(lists, children[k], copy, mid);
    PlansBounded(start, children[k], [], copy, mid);
    PlansBounded(start, index, children[..k + 1], copy, base);
    PlansApart(start, index, k, copy, base, mid);
    StepJoins(lists, children, k, index, copy, base, before, one);
  }

  lemma StepJoins(lists: seq<seq<nat>>, children: seq<nat>, k: nat, index: nat, copy: nat, base: nat, before: Plan, one: Plan)
    requires Downward(lists) && Between(children, index, |lists|) && k < |children|
    requires before == PlanAll(lists, children[..k], index, copy, base)
    requires one == PlanOf(lists, children[k], copy, base + |before.dying|)
    ensures PlanAll(lists, children[..k + 1], index, copy, base) == Joined(before, one)
    ensures Tops(lists, children[..k + 1], index, copy, base)
         == Tops(lists, children[..k], index, copy, base) + [base + |before.dying|]
  {
    assert children[..k + 1][..k] == children[..k];
    PlanAllStep(lists, children[..k + 1], index, copy, base, before, Tops(lists, children[..k], index, copy, base), one);
  }

  /** Copying a node and then its children, and listing their copies. */
  lemma CopyCompleted(a: Arena, index: nat, parent: nat, inner: Plan, tops: seq<nat>)
    requires index < |a.nodes| && PlanFor(inner, |a.nodes|) && index !in inner.dying
    ensures var node, plan := Plan([index], [parent], [[]]), Joined(Plan([index], [parent], [tops]), inner);
            && PlanFor(node, |a.nodes|) && PlanFor(plan, |a.nodes|) && PlanFor(inner, |Copied(a, node).nodes|)
            && WithChildren(Copied(Copied(a, node), inner), |a.nodes|, tops) == Copied(a, plan)
  {
    var node := Plan([index], [parent], [[]]);
    CopiedJoined(a, node, inner);
    CopiedWithChildren(a, Joined(node, inner), 0, tops);
    assert Joined(node, inner).(kids := Joined(node, inner).kids[0 := tops])
        == Joined(Plan([index], [parent], [tops]), inner);
  }

  lemma InnerPlan(start: seq<Node>, index: nat, base: nat)
    requires NodesOk(start) && index < |start|
    requires Downward(ChildLists(start)) && Between(start[index].children, index, |start|)
    ensures var inner := PlanAll(ChildLists(start), start[index].children, index, base, base + 1);
            PlanFor(inner, |start|) && index !in inner.dying
  {
    var lists, children := ChildLists(start), start[index].children;
    PlansBounded(start, index, children, base, base + 1);
    PlanAllPreorder(lists, children, index, base, base + 1);
    PreorderAllBetween(lists, children, index);
  }

  /** With its children replaced and listed, a copy is complete. */
  lemma PlanCompleted(start: seq<Node>, index: nat, parent: nat, base: nat, inner: Plan, tops: seq<nat>)
    requires NodesOk(start) && index < |start|
    requires Downward(ChildLists(start)) && Between(start[index].children, index, |start|)
    requires inner == PlanAll(ChildLists(start), start[index].children, index, base, base + 1)
    requires tops == Tops(ChildLists(start), start[index].children, index, base, base + 1)
    ensures PlanOf(ChildLists(start), index, parent, base) == Joined(Plan([index], [parent], [tops]), inner)
  {
    assert ChildLists(start)[index] == start[index].children;
  }

  /** What inserting the nodes of `list` under `parent` has come to. */
  ghost predicate Inserted(list: seq<FixtureNode>, parent: nat,
                           nodes0: seq<Node>, names0: map<string, nat>, controllers0: seq<(nat, string)>,
                           nodes: seq<Node>, names: map<string, nat>, controllers: seq<(nat, string)>, indices: seq<nat>)
  {
    && nodes == nodes0 + LaidAll(list, Some(parent), |nodes0|)
    && indices == LaidTops(list, |nodes0|)
    && names == NamesWith(names0, IdsAll(list), |nodes0|)
    && controllers == controllers0 + ControlsAll(list, |nodes0|)
  }

  lemma InsertedStep(list: seq<FixtureNode>, k: nat, parent: nat,
                     nodes0: seq<Node>, names0: map<string, nat>, controllers0: seq<(nat, string)>,
                     nodes: seq<Node>, names: map<string, nat>, controllers: seq<(nat, string)>, indices: seq<nat>)
    requires k < |list|
    requires Inserted(list[..k], parent, nodes0, names0, controllers0, nodes, names, controllers, indices)
    ensures Inserted(list[..k + 1], parent, nodes0, names0, controllers0,
                     nodes + Laid(list[k], Some(parent), |nodes|), NamesWith(names, Ids(list[k]), |nodes|),
                     controllers + Controls(list[k], |nodes|), indices + [|nodes|])
  {
    NodesLength(list[..k], parent, nodes0, nodes);
    NodesStep(list, k, parent, nodes0, |nodes0|, nodes, |nodes|);
    NamesStep(list, k, names0, |nodes0|, names, |nodes|);
    ControlsStep(list, k, controllers0, |nodes0|, controllers, |nodes|);
  }

  lemma NodesLength(list: seq<FixtureNode>, parent: nat, nodes0: seq<Node>, nodes: seq<Node>)
    requires nodes == nodes0 + LaidAll(list, Some(parent), |nodes0|)
    ensures |nodes| == |nodes0| + |IdsAll(list)|
  {
  }

  lemma NodesStep(list: seq<FixtureNode>, k: nat, parent: nat, nodes0: seq<Node>, base: nat, nodes: seq<Node>, mid: nat)
    requires k < |list| && nodes == nodes0 + LaidAll(list[..k], Some(parent), base) && mid == base + |IdsAll(list[..k])|
    ensures nodes + Laid(list[k], Some(parent), mid) == nodes0 + LaidAll(list[..k + 1], Some(parent), base)
    ensures LaidTops(list[..k + 1], base) == LaidTops(list[..k], base) + [mid]
  {
    assert list[..k + 1] == list[..k] + [list[k]];
    LaidSnoc(list[..k], list[k], Some(parent), base);
    Associate(nodes0, LaidAll(list[..k], Some(parent), base), Laid(list[k], Some(parent), mid));
  }

  lemma NamesStep(list: seq<FixtureNode>, k: nat, names0: map<string, nat>, base: nat, names: map<string, nat>, mid: nat)
    requires k < |list| && names == NamesWith(names0, IdsAll(list[..k]), base) && mid == base + |IdsAll(list[..k])|
    ensures NamesWith(names, Ids(list[k]), mid) == NamesWith(names0, IdsAll(list[..k + 1]), base)
  {
    assert list[..k + 1] == list[..k] + [list[k]];
    IdsSnoc(list[..k], list[k]);
    NamesWithConcat(names0, IdsAll(list[..k]), Ids(list[k]), base);
  }

  lemma ControlsStep(list: seq<FixtureNode>, k: nat, controllers0: seq<(nat, string)>, base: nat,
                     controllers: seq<(nat, string)>, mid: nat)
    requires k < |list| && controllers == controllers0 + ControlsAll(list[..k], base) && mid == base + |IdsAll(list[..k])|
    ensures controllers + Controls(list[k], mid) == controllers0 + ControlsAll(list[..k + 1], base)
  {
    assert list[..k + 1] == list[..k] + [list[k]];
    ControlsSnoc(list[..k], list[k], base);
    Associate(controllers0, ControlsAll(list[..k], base), Controls(list[k], mid));
  }

  lemma InsertedNames(node: FixtureNode, names: map<string, nat>, index: nat)
    ensures NamesWith(names[node.id := index], IdsAll(node.children), index + 1) == NamesWith(names, Ids(node), index)
  {
    NamesWithConcat(names, [node.id], IdsAll(node.children), index);
    assert [node.id][..0] == [];
    assert NamesWith(names, [node.id], index) == names[node.id := index];
  }

  lemma BuiltInSteps(root: FixtureNode, a: Arena, laid: seq<Node>, controllers: seq<(nat, string)>)
    requires laid == Laid(root, None, 0) && controllers == Controls(root, 0)
    requires forall k :: 0 <= k < |controllers| ==> controllers[k].0 < |laid|
    requires a.nodes == Resolved(laid, controllers, a.names) && a.names == NamesWith(map[], Ids(root), 0)
    requires FirstFocused(a.nodes, a.focused) && a.selected == None
    ensures Built(root, a) && Replacement.Tree(a)
  {
    BuiltIsTree(root, a);
  }

  /** A node pushed without children and given them afterwards. */
  lemma LaidWhole(node: FixtureNode, parent: Option<nat>, before: seq<Node>, top: Node, rest: seq<Node>)
    requires top == Node(node.details, node.states, None, parent, [], |before|, false, false)
    requires rest == LaidAll(node.children, Some(|before|), |before| + 1)
    ensures ((before + [top]) + rest)[|before| := top.(children := LaidTops(node.children, |before| + 1))]
            == before + Laid(node, parent, |before|)
  {
  }

  /** `dying` are the nodes below `top`, each once. */
  ghost predicate DiesBelow(nodes: seq<Node>, dying: seq<nat>, top: nat)
    requires NodesOk(nodes)
  {
    Distinct(dying) && forall i: nat :: i < |nodes| ==> (i in dying <==> Below(nodes, top, i))
  }

  lemma ItemsDie(a: Arena, top: nat)
    requires Replacement.Tree(a) && top < |a.nodes|
    ensures DiesBelow(a.nodes, Dying(a, top), top) && ReplacedForm(a, ItemsReplaced(a, top), Dying(a, top), top)
  {
    ItemsReplacedForm(a, top);
  }

  /** `after` is `list` with `x` taken out of it, if it was there. */
  ghost predicate TakenFrom(list: seq<nat>, x: nat, after: seq<nat>) {
    || (x !in list && after == list)
    || (exists k :: 0 <= k < |list| && list[k] == x && after == list[..k] + list[k + 1..])
  }

  /** Node `i` once `taker` has the runtime id of `dying`, which was `gone` and is
      dead and not listed any more; nothing else is changed. */
  ghost predicate TakenNode(was: Node, i: nat, taker: nat, dying: nat, gone: Node, now: Node) {
    && now == was.(runtimeId := if i == taker then gone.runtimeId else was.runtimeId,
                   dead := was.dead || i == dying, children := now.children)
    && (if gone.parent == Some(i) then TakenFrom(was.children, dying, now.children) else now.children == was.children)
  }

  ghost predicate TakenOver(was: seq<Node>, taker: nat, dying: nat, now: seq<Node>)
    requires dying < |was|
  {
    |now| == |was| && forall i: nat :: i < |now| ==> TakenNode(was[i], i, taker, dying, was[dying], now[i])
  }

  lemma TakeForm(a: Arena, taker: nat, dying: nat)
    requires Replacement.Tree(a) && taker < |a.nodes| && 0 < dying < |a.nodes|
    ensures Within(a.nodes[dying].parent, |a.nodes|)
    ensures TakenOver(a.nodes, taker, dying, AfterTake(a, taker, dying).nodes)
  {
    assert NodeOk(a.nodes, dying);
    var p := a.nodes[dying].parent.value;
    assert NodeOk(a.nodes, p);
    WithoutTakes(a.nodes[p].children, dying);
    TakenInSteps(a.nodes, p, Without(a.nodes[p].children, dying), taker, dying);
  }

  lemma TakenInSteps(was: seq<Node>, p: nat, children: seq<nat>, taker: nat, dying: nat)
    requires p < |was| && dying < |was| && taker < |was| && p != dying && was[dying].parent == Some(p)
    requires TakenFrom(was[p].children, dying, children)
    ensures var unlisted := was[p := was[p].(children := children)];
            var killed := unlisted[dying := unlisted[dying].(dead := true)];
            TakenOver(was, taker, dying, killed[taker := killed[taker].(runtimeId := killed[dying].runtimeId)])
  {
    var unlisted := was[p := was[p].(children := children)];
    var killed := unlisted[dying := unlisted[dying].(dead := true)];
    var now := killed[taker := killed[taker].(runtimeId := killed[dying].runtimeId)];
    forall i: nat | i < |now| ensures TakenNode(was[i], i, taker, dying, was[dying], now[i]) {
    }
  }

  /** The nodes once `state` has moved from `previous` to `to`, whose state it stays if
      the two are one node; nothing else is changed. */
  ghost predicate StateMoved(was: seq<Node>, previous: Option<nat>, to: nat, state: State, now: seq<Node>) {
    && |now| == |was|
    && forall i :: 0 <= i < |now| ==>
         now[i] == was[i].(states := if i == to then was[i].states + {state}
                                     else if previous == Some(i) then was[i].states - {state}
                                     else was[i].states)
  }

  lemma StateForm(a: Arena, previous: Option<nat>, to: nat, state: State)
    requires to < |a.nodes| && Within(previous, |a.nodes|)
    ensures StateMoved(a.nodes, previous, to, state, WithState(a, previous, to, state).nodes)
  {
    if previous == Some(to) {
      var states := a.nodes[to].states;
      assert states - {state} + {state} == states + {state};
    }
  }

  lemma {:induction false} WithoutTakes(list: seq<nat>, x: nat)
    requires Distinct(list)
    ensures TakenFrom(list, x, Without(list, x))
  {
    if x in list {
      var k :| 0 <= k < |list| && list[k] == x;
      WithoutOne(list, k);
      assert Without(list, x) == list[..k] + list[k + 1..];
    } else {
      WithoutNone(list, x);
    }
  }

  lemma {:induction false} WithoutOne(list: seq<nat>, k: nat)
    requires Distinct(list) && k < |list|
    ensures Without(list, list[k]) == list[..k] + list[k + 1..]
  {
    if k == 0 {
      WithoutNone(list[1..], list[0]);
      assert list[..0] + list[1..] == list[1..];
    } else {
      WithoutOne(list[1..], k - 1);
      assert list[..k] + list[k + 1..] == [list[0]] + (list[1..][..k - 1] + list[1..][k..]);
    }
  }

  lemma {:induction false} WithoutNone(list: seq<nat>, x: nat)
    requires x !in list
    ensures Without(list, x) == list
  {
    if list != [] { WithoutNone(list[1..], x); }
  }

  class Tree {
    var nodes: seq<Node>
    var byFixtureId: map<string, nat>
    var focused: Option<nat>
    var selected: Option<nat>

    ghost function View(): Arena
      reads this
    {
      Arena(nodes, byFixtureId, focused, selected)
    }

    ghost predicate Valid()
      reads this
    {
      Replacement.Tree(View())
    }

    /** Flattens a fixture into the arena, depth first, the root at 0. */
    constructor (root: FixtureNode)
      ensures Built(root, View()) && Valid()
    {
      nodes, byFixtureId, focused, selected := [], map[], None, None;
      new;
      var controllers := Insert(root, None, []);
      ghost var laid := nodes;
      assert laid == Laid(root, None, 0) && controllers == Controls(root, 0);
      ControlsWithin(root, 0);
      ResolveControllers(controllers);
      FindFocused();
      BuiltInSteps(root, View(), laid, controllers);
    }

    /** Resolves each relation once every id has its index. */
    method ResolveControllers(controllers: seq<(nat, string)>)
      requires forall k :: 0 <= k < |controllers| ==> controllers[k].0 < |nodes|
      modifies this`nodes
      ensures nodes == Resolved(old(nodes), controllers, byFixtureId)
    {
      for k := 0 to |controllers|
        invariant nodes == Resolved(old(nodes), controllers[..k], byFixtureId)
      {
        var (index, controlled) := controllers[k];
        assert controllers[..k + 1][..k] == controllers[..k];
        nodes := nodes[index := nodes[index].(
          controllerFor := if controlled in byFixtureId then Some(byFixtureId[controlled]) else None)];
      }
      assert controllers[..|controllers|] == controllers;
    }

    /** Looks for a node whose states say it has the focus, from the root on. */
    method FindFocused()
      modifies this`focused
      ensures FirstFocused(nodes, focused)
    {
      var i := 0;
      while i < |nodes| && Focused !in nodes[i].states
        invariant i <= |nodes| && forall j :: 0 <= j < i ==> Focused !in nodes[j].states
      {
        i := i + 1;
      }
      focused := if i < |nodes| then Some(i) else None;
    }

    /** Pushes a fixture node and everything under it, depth first. */
    method Insert(node: FixtureNode, parent: Option<nat>, controllers: seq<(nat, string)>)
      returns (controllers': seq<(nat, string)>)
      modifies this
      ensures nodes == old(nodes) + Laid(node, parent, old(|nodes|))
      ensures byFixtureId == NamesWith(old(byFixtureId), Ids(node), old(|nodes|))
      ensures controllers' == controllers + Controls(node, old(|nodes|))
      ensures focused == old(focused) && selected == old(selected)
      decreases node, 1
    {
      var index := |nodes|;
      ghost var before := nodes;
      InsertedNames(node, byFixtureId, index);
      Associate(controllers, OwnControl(node, index), ControlsAll(node.children, index + 1));
      controllers' := PushTop(node, parent, controllers);
      ghost var top := nodes[index];
      var children;
      children, controllers' := InsertAll(node.children, index, controllers');
      nodes := nodes[index := nodes[index].(children := children)];
      LaidWhole(node, parent, before, top, LaidAll(node.children, Some(index), index + 1));
    }

    /** One node pushed, named and its relation noted. */
    method PushTop(node: FixtureNode, parent: Option<nat>, controllers: seq<(nat, string)>)
      returns (controllers': seq<(nat, string)>)
      modifies this`nodes, this`byFixtureId
      ensures nodes == old(nodes) + [Node(node.details, node.states, None, parent, [], old(|nodes|), false, false)]
      ensures byFixtureId == old(byFixtureId)[node.id := old(|nodes|)]
      ensures controllers' == controllers + OwnControl(node, old(|nodes|))
    {
      var index := |nodes|;
      nodes := nodes + [Node(node.details, node.states, None, parent, [], index, false, false)];
      byFixtureId := byFixtureId[node.id := index];
      controllers' := controllers;
      if node.controllerFor.Some? {
        controllers' := controllers' + [(index, node.controllerFor.value)];
      }
    }

    /** The loop of `insert` over a node's children. */
    method InsertAll(list: seq<FixtureNode>, parent: nat, controllers: seq<(nat, string)>)
      returns (indices: seq<nat>, controllers': seq<(nat, string)>)
      modifies this
      ensures nodes == old(nodes) + LaidAll(list, Some(parent), old(|nodes|))
      ensures indices == LaidTops(list, old(|nodes|))
      ensures byFixtureId == NamesWith(old(byFixtureId), IdsAll(list), old(|nodes|))
      ensures controllers' == controllers + ControlsAll(list, old(|nodes|))
      ensures focused == old(focused) && selected == old(selected)
      decreases list, 0
    {
      ghost var names := byFixtureId;
      indices, controllers' := [], controllers;
      for k := 0 to |list|
        invariant Inserted(list[..k], parent, old(nodes), names, controllers, nodes, byFixtureId, controllers', indices)
        invariant focused == old(focused) && selected == old(selected)
      {
        InsertedStep(list, k, parent, old(nodes), names, controllers, nodes, byFixtureId, controllers', indices);
        indices := indices + [|nodes|];
        controllers' := Insert(list[k], Some(parent), controllers');
      }
      assert list[..|list|] == list;
    }

    method IndexOf(id: string) returns (index: Option<nat>)
      requires Valid()
      ensures index == (if id in byFixtureId then Some(byFixtureId[id]) else None)
      ensures index.Some? ==> index.value < |nodes|
    {
      index := if id in byFixtureId then Some(byFixtureId[id]) else None;
    }

    method TakeRuntimeId(id: string, from: string) returns (reply: Reply)
      requires Valid()
      modifies this
      ensures Valid() && View() == After(old(View()), Command.TakeRuntimeId(id, from))
      ensures byFixtureId == old(byFixtureId)
      ensures reply.Unknown? <==> id !in byFixtureId || from !in byFixtureId
      ensures !reply.Unknown? ==>
                (reply.Refused? <==> byFixtureId[id] == byFixtureId[from] || byFixtureId[from] == 0
                                     || old(nodes)[byFixtureId[from]].dead)
      ensures reply.Unknown? ==> reply.id == if id !in byFixtureId then id else from
      ensures !reply.Done? ==> nodes == old(nodes) && focused == old(focused) && selected == old(selected)
      ensures reply.Done? ==>
                var taker, dying, was := byFixtureId[id], byFixtureId[from], old(nodes);
                && |nodes| == |was| && taker < |was| && dying < |was|
                && nodes[taker].runtimeId == was[dying].runtimeId && nodes[dying].dead
                && TakenOver(was, taker, dying, nodes)
                && focused == (if old(focused) == Some(dying) then None else old(focused))
                && selected == (if old(selected) == Some(dying) then None else old(selected))
    {
      ghost var before := View();
      CommandKeepsTree(before, Command.TakeRuntimeId(id, from));
      if id !in byFixtureId { return Unknown(id); }
      if from !in byFixtureId { return Unknown(from); }
      var taker, dying := byFixtureId[id], byFixtureId[from];
      if taker == dying || dying == 0 || nodes[dying].dead { return Refused; }
      assert NodeOk(nodes, dying);
      TakeForm(before, taker, dying);
      if nodes[dying].parent.Some? {
        var parent := nodes[dying].parent.value;
        nodes := nodes[parent := nodes[parent].(children := Without(nodes[parent].children, dying))];
      }
      nodes := nodes[dying := nodes[dying].(dead := true)];
      if focused == Some(dying) { focused := None; }
      if selected == Some(dying) { selected := None; }
      nodes := nodes[taker := nodes[taker].(runtimeId := nodes[dying].runtimeId)];
      reply := Done;
    }

    method ShareRuntimeId(id: string, from: string) returns (reply: Reply)
      requires Valid()
      modifies this
      ensures Valid() && View() == After(old(View()), Command.ShareRuntimeId(id, from))
      ensures byFixtureId == old(byFixtureId)
      ensures reply.Unknown? <==> id !in byFixtureId || from !in byFixtureId
      ensures !reply.Unknown? ==>
                (reply.Refused? <==> byFixtureId[id] == byFixtureId[from] || byFixtureId[from] == 0
                                     || old(nodes)[byFixtureId[from]].dead)
      ensures reply.Unknown? ==> reply.id == if id !in byFixtureId then id else from
      ensures focused == old(focused) && selected == old(selected)
      ensures !reply.Done? ==> nodes == old(nodes)
      ensures reply.Done? ==>
                var taker, giver, was := byFixtureId[id], byFixtureId[from], old(nodes);
                && |nodes| == |was| && taker < |was| && giver < |was|
                && forall i :: 0 <= i < |nodes| ==>
                     nodes[i] == was[i].(runtimeId := if i == taker then was[giver].runtimeId else was[i].runtimeId)
    {
      CommandKeepsTree(View(), Command.ShareRuntimeId(id, from));
      if id !in byFixtureId { return Unknown(id); }
      if from !in byFixtureId { return Unknown(from); }
      var taker, giver := byFixtureId[id], byFixtureId[from];
      if taker == giver || giver == 0 || nodes[giver].dead { return Refused; }
      nodes := nodes[taker := nodes[taker].(runtimeId := nodes[giver].runtimeId)];
      reply := Done;
    }

    method Disconnect(id: string) returns (reply: Reply)
      requires Valid()
      modifies this
      ensures Valid() && View() == After(old(View()), Command.Disconnect(id))
      ensures reply.Unknown? <==> id !in byFixtureId
      ensures reply.Refused? <==> id in byFixtureId && (byFixtureId[id] == 0 || old(nodes)[byFixtureId[id]].dead)
      ensures byFixtureId == old(byFixtureId) && focused == old(focused) && selected == old(selected)
      ensures !reply.Done? ==> nodes == old(nodes)
      ensures reply.Done? ==>
                && |nodes| == |old(nodes)|
                && forall i :: 0 <= i < |nodes| ==>
                     nodes[i] == old(nodes)[i].(dead := old(nodes)[i].dead || i == byFixtureId[id])
    {
      CommandKeepsTree(View(), Command.Disconnect(id));
      if id !in byFixtureId { return Unknown(id); }
      var index := byFixtureId[id];
      if index == 0 || nodes[index].dead { return Refused; }
      nodes := nodes[index := nodes[index].(dead := true)];
      reply := Done;
    }

    method DisconnectAtFirstChild(id: string) returns (reply: Reply)
      requires Valid()
      modifies this
      ensures Valid() && View() == After(old(View()), Command.DisconnectAtFirstChild(id))
      ensures reply.Unknown? <==> id !in byFixtureId
      ensures reply.Refused? <==> id in byFixtureId && (byFixtureId[id] == 0 || old(nodes)[byFixtureId[id]].dead)
      ensures byFixtureId == old(byFixtureId) && focused == old(focused) && selected == old(selected)
      ensures !reply.Done? ==> nodes == old(nodes)
      ensures reply.Done? ==>
                && |nodes| == |old(nodes)|
                && forall i :: 0 <= i < |nodes| ==>
                     nodes[i] == old(nodes)[i].(diesAtFirstChild := old(nodes)[i].diesAtFirstChild || i == byFixtureId[id])
    {
      CommandKeepsTree(View(), Command.DisconnectAtFirstChild(id));
      if id !in byFixtureId { return Unknown(id); }
      var index := byFixtureId[id];
      if index == 0 || nodes[index].dead { return Refused; }
      nodes := nodes[index := nodes[index].(diesAtFirstChild := true)];
      reply := Done;
    }

    method ReplaceItems(id: string) returns (reply: Reply)
      requires Valid()
      modifies this
      ensures Valid() && View() == After(old(View()), Command.ReplaceItems(id))
      ensures reply.Unknown? <==> id !in old(byFixtureId)
      ensures reply.Refused? <==> id in old(byFixtureId) && old(nodes)[old(byFixtureId)[id]].dead
      ensures !reply.Done? ==> View() == old(View())
      ensures reply.Done? ==>
                var top := old(byFixtureId)[id];
                exists dying :: DiesBelow(old(nodes), dying, top) && ReplacedForm(old(View()), View(), dying, top)
    {
      ghost var a := View();
      CommandKeepsTree(a, Command.ReplaceItems(id));
      if id !in byFixtureId { return Unknown(id); }
      var parent := byFixtureId[id];
      if nodes[parent].dead { return Refused; }
      ghost var start := nodes;
      PreorderOnce(start, parent);
      var children := nodes[parent].children;
      var copies := ReplaceEach(children, parent, parent, start);
      nodes := nodes[parent := nodes[parent].(children := copies)];
      ItemsDie(a, parent);
      reply := Done;
    }

    /** Replaces each of the children of node `index`, copied under `parent`. */
    method ReplaceEach(children: seq<nat>, parent: nat, ghost index: nat, ghost start: seq<Node>)
      returns (copies: seq<nat>)
      requires NodesOk(start) && index < |start| && SameLists(start, nodes) && children == start[index].children
      requires Downward(ChildLists(start)) && Between(children, index, |start|)
      modifies this
      ensures var plan := PlanAll(ChildLists(start), children, index, parent, old(|nodes|));
              PlanFor(plan, old(|nodes|)) && View() == Copied(old(View()), plan)
      ensures copies == Tops(ChildLists(start), children, index, parent, old(|nodes|))
      ensures SameLists(start, nodes)
      decreases |start| - index, 0
    {
      ghost var a, lists := View(), ChildLists(start);
      copies := [];
      assert View() == Copied(a, PlanAll(lists, children[..0], index, parent, |a.nodes|)) by {
        NothingCopied(a);
      }
      for k := 0 to |children|
        invariant PlanFor(PlanAll(lists, children[..k], index, parent, |a.nodes|), |a.nodes|)
        invariant View() == Copied(a, PlanAll(lists, children[..k], index, parent, |a.nodes|))
        invariant copies == Tops(lists, children[..k], index, parent, |a.nodes|)
        invariant SameLists(start, nodes)
      {
        ReplaceStep(start, index, k, parent, a, View());
        var copy := Replace(children[k], parent, start);
        copies := copies + [copy];
      }
      assert children[..|children|] == children;
    }

    /** Copies node `index`, with all below it, to be a child of `parent`; the
        originals die. */
    method Replace(index: nat, parent: nat, ghost start: seq<Node>) returns (copy: nat)
      requires NodesOk(start) && index < |start| && SameLists(start, nodes)
      modifies this
      ensures Downward(ChildLists(start))
      ensures var plan := PlanOf(ChildLists(start), index, parent, old(|nodes|));
              PlanFor(plan, old(|nodes|)) && View() == Copied(old(View()), plan)
      ensures copy == old(|nodes|)
      ensures SameLists(start, nodes)
      decreases |start| - index, 1
    {
      ghost var a := View();
      PreorderOnce(start, index);
      copy := |nodes|;
      CopyOne(index, parent);
      ghost var node := Plan([index], [parent], [[]]);
      SameListsCopied(start, a, node);
      var children := nodes[index].children;
      var copies := ReplaceEach(children, copy, index, start);
      ghost var inner := PlanAll(ChildLists(start), children, index, copy, copy + 1);
      InnerPlan(start, index, copy);
      PlanCompleted(start, index, parent, copy, inner, copies);
      CopyCompleted(a, index, parent, inner, copies);
      SameListsCopied(start, a, PlanOf(ChildLists(start), index, parent, copy));
      nodes := nodes[copy := nodes[copy].(children := copies)];
    }

    /** Node `index` dies and its copy, without children, is pushed; everything
        that named it names the copy. */
    method CopyOne(index: nat, parent: nat)
      requires index < |nodes|
      modifies this
      ensures PlanFor(Plan([index], [parent], [[]]), old(|nodes|))
      ensures View() == Copied(old(View()), Plan([index], [parent], [[]]))
    {
      ghost var a := View();
      var copy := |nodes|;
      PushCopy(index, parent);
      byFixtureId := map name | name in byFixtureId ::
        if byFixtureId[name] == index then copy else byFixtureId[name];
      if focused == Some(index) { focused := Some(copy); }
      if selected == Some(index) { selected := Some(copy); }
      CopyOneForm(a, index, parent, View());
    }

    /** Pushes a copy of a node that dies; relations to it go to the copy. */
    method PushCopy(index: nat, parent: nat)
      requires index < |nodes|
      modifies this`nodes
      ensures CopyPushed(old(nodes), index, parent, nodes)
    {
      var copy := |nodes|;
      var node := nodes[index].(parent := Some(parent), runtimeId := copy, children := []);
      nodes := nodes + [node];
      nodes := nodes[index := nodes[index].(dead := true)];
      RetargetControllers(index, copy);
    }

    /** Every relation to node `from` becomes one to node `to`. */
    method RetargetControllers(from: nat, to: nat)
      modifies this`nodes
      ensures |nodes| == old(|nodes|)
      ensures forall j :: 0 <= j < |nodes| ==>
        nodes[j] == old(nodes)[j].(controllerFor :=
          if old(nodes)[j].controllerFor == Some(from) then Some(to) else old(nodes)[j].controllerFor)
    {
      for i := 0 to |nodes|
        invariant |nodes| == old(|nodes|)
        invariant forall j :: i <= j < |nodes| ==> nodes[j] == old(nodes)[j]
        invariant forall j :: 0 <= j < i ==>
          nodes[j] == old(nodes)[j].(controllerFor :=
            if old(nodes)[j].controllerFor == Some(from) then Some(to) else old(nodes)[j].controllerFor)
      {
        if nodes[i].controllerFor == Some(from) {
          nodes := nodes[i := nodes[i].(controllerFor := Some(to))];
        }
      }
    }

    /** The `focus` command: the focus, and the state of having it, move. */
    method FocusNode(id: string) returns (index: Option<nat>)
      requires Valid()
      modifies this
      ensures Valid() && View() == After(old(View()), Command.Focus(id))
      ensures index == if id in old(byFixtureId) then Some(old(byFixtureId)[id]) else None
      ensures byFixtureId == old(byFixtureId) && selected == old(selected)
      ensures index.None? ==> nodes == old(nodes) && focused == old(focused)
      ensures index.Some? ==>
                focused == index && StateMoved(old(nodes), old(focused), index.value, Focused, nodes)
    {
      CommandKeepsTree(View(), Command.Focus(id));
      if id !in byFixtureId { return None; }
      var i := byFixtureId[id];
      StateForm(View(), focused, i, Focused);
      if focused.Some? {
        var previous := focused.value;
        nodes := nodes[previous := nodes[previous].(states := nodes[previous].states - {Focused})];
      }
      focused := Some(i);
      nodes := nodes[i := nodes[i].(states := nodes[i].states + {Focused})];
      index := Some(i);
    }

    /** The `select` command: single selection. */
    method SelectNode(id: string) returns (index: Option<nat>)
      requires Valid()
      modifies this
      ensures Valid() && View() == After(old(View()), Command.Select(id))
      ensures index == if id in old(byFixtureId) then Some(old(byFixtureId)[id]) else None
      ensures byFixtureId == old(byFixtureId) && focused == old(focused)
      ensures index.None? ==> nodes == old(nodes) && selected == old(selected)
      ensures index.Some? ==>
                selected == index && StateMoved(old(nodes), old(selected), index.value, Selected, nodes)
    {
      CommandKeepsTree(View(), Command.Select(id));
      if id !in byFixtureId { return None; }
      var i := byFixtureId[id];
      StateForm(View(), selected, i, Selected);
      if selected.Some? {
        var previous := selected.value;
        nodes := nodes[previous := nodes[previous].(states := nodes[previous].states - {Selected})];
      }
      selected := Some(i);
      nodes := nodes[i := nodes[i].(states := nodes[i].states + {Selected})];
      index := Some(i);
    }

    /** The `set-controller-for` command. */
    method SetControllerFor(id: string, controlled: Option<string>) returns (reply: Reply)
      requires Valid()
      modifies this`nodes
      ensures Valid() && View() == After(old(View()), Command.SetControllerFor(id, controlled))
      ensures reply == if controlled.Some? && controlled.value !in byFixtureId then Unknown(controlled.value)
                       else if id !in byFixtureId then Unknown(id) else Done
      ensures !reply.Done? ==> nodes == old(nodes)
      ensures reply.Done? ==>
                && |nodes| == |old(nodes)|
                && forall i :: 0 <= i < |nodes| ==>
                     nodes[i] == old(nodes)[i].(controllerFor :=
                       if i != byFixtureId[id] then old(nodes)[i].controllerFor
                       else if controlled.None? then None else Some(byFixtureId[controlled.value]))
    {
      CommandKeepsTree(View(), Command.SetControllerFor(id, controlled));
      var target := None;
      if controlled.Some? {
        if controlled.value !in byFixtureId { return Unknown(controlled.value); }
        target := Some(byFixtureId[controlled.value]);
      }
      if id !in byFixtureId { return Unknown(id); }
      var index := byFixtureId[id];
      nodes := nodes[index := nodes[index].(controllerFor := target)];
      reply := Done;
    }

    /** A provider's step to its first child, at which a node can die. */
    method FirstChild(index: nat) returns (child: Option<nat>)
      requires Valid() && index < |nodes|
      modifies this
      ensures Valid() && View() == After(old(View()), Command.AskFirstChild(index))
      ensures child == if old(nodes)[index].diesAtFirstChild || old(nodes)[index].children == [] then None
                       else Some(old(nodes)[index].children[0])
      ensures child.Some? ==> child.value < |nodes| && nodes[child.value].parent == Some(index)
      ensures byFixtureId == old(byFixtureId) && focused == old(focused) && selected == old(selected)
      ensures |nodes| == |old(nodes)|
      ensures forall i :: 0 <= i < |nodes| ==>
                nodes[i] == old(nodes)[i].(dead := old(nodes)[i].dead || (i == index && old(nodes)[i].diesAtFirstChild))
    {
      CommandKeepsTree(View(), Command.AskFirstChild(index));
      assert NodeOk(nodes, index);
      if nodes[index].diesAtFirstChild {
        nodes := nodes[index := nodes[index].(dead := true)];
        return None;
      }
      child := if nodes[index].children == [] then None else Some(nodes[index].children[0]);
    }

    method Sibling(index: nat, offset: int) returns (sibling: Option<nat>)
      requires Valid() && index < |nodes|
      ensures Replacement.Within(nodes[index].parent, |nodes|)
      ensures sibling == TreeCommands.Sibling(View(), index, offset)
      ensures sibling.Some? <==>
                && nodes[index].parent.Some?
                && var siblings := nodes[nodes[index].parent.value].children;
                   exists k :: 0 <= k < |siblings| && siblings[k] == index && 0 <= k + offset < |siblings|
      ensures sibling.Some? ==>
                var siblings := nodes[nodes[index].parent.value].children;
                exists k :: 0 <= k < |siblings| && siblings[k] == index && 0 <= k + offset < |siblings|
                            && sibling.value == siblings[k + offset]
    {
      assert NodeOk(nodes, index);
      if nodes[index].parent.None? { return None; }
      assert NodeOk(nodes, nodes[index].parent.value);
      var siblings := nodes[nodes[index].parent.value].children;
      if index !in siblings { return None; }
      var target := Position(siblings, index) + offset;
      sibling := if 0 <= target < |siblings| then Some(siblings[target]) else None;
    }
  }

  lemma NothingCopied(a: Arena)
    ensures PlanFor(NOTHING, |a.nodes|) && Copied(a, NOTHING) == a
  {
    assert forall x: nat :: Renamed([], |a.nodes|, x) == x;
    assert CopiedNodes(a.nodes, NOTHING) == a.nodes;
    assert RenamedNames(a.names, [], |a.nodes|) == a.names;
  }
}
