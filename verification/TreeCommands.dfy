/** The commands that change the scripted tree (crates/mockapp/src/tree.rs,
    crates/mockapp/src/uia.rs), as functions of the arena, and what every run of
    them keeps. */
module TreeCommands {
  import opened Basics
  import opened Arenas
  import opened Replacement
  import opened Fixtures

  datatype Command =
    | TakeRuntimeId(id: string, from: string)
    | ShareRuntimeId(id: string, from: string)
    | Disconnect(id: string)
    | DisconnectAtFirstChild(id: string)
    | ReplaceItems(id: string)
    | Focus(id: string)
    | Select(id: string)
    | SetControllerFor(id: string, controlled: Option<string>)
    | AskFirstChild(index: nat)

  lemma {:induction false} WithoutNoRepeat(s: seq<nat>, x: nat)
    requires Distinct(s)
    ensures Distinct(Without(s, x))
  {
    if s != [] {
      WithoutNoRepeat(s[1..], x);
      assert s[0] !in Without(s[1..], x);
    }
  }

  function Cleared(x: Option<nat>, i: nat): Option<nat> {
    if x == Some(i) then None else x
  }

  /** Node `dying` leaves the tree, and `taker` takes its runtime id. */
  function AfterTake(a: Arena, taker: nat, dying: nat): Arena
    requires taker < |a.nodes| && dying < |a.nodes| && Within(a.nodes[dying].parent, |a.nodes|)
  {
    var parent := a.nodes[dying].parent;
    var unlisted :=
      if parent.None? then a.nodes
      else a.nodes[parent.value := a.nodes[parent.value].(children := Without(a.nodes[parent.value].children, dying))];
    var killed := unlisted[dying := unlisted[dying].(dead := true)];
    a.(nodes := killed[taker := killed[taker].(runtimeId := killed[dying].runtimeId)],
       focused := Cleared(a.focused, dying), selected := Cleared(a.selected, dying))
  }

  function WithNode(a: Arena, i: nat, node: Node): Arena
    requires i < |a.nodes|
  {
    a.(nodes := a.nodes[i := node])
  }

  /** The state `state` moves to node `i` from `previous`. */
  function WithState(a: Arena, previous: Option<nat>, i: nat, state: State): Arena
    requires i < |a.nodes| && Within(previous, |a.nodes|)
  {
    var nodes :=
      if previous.None? then a.nodes
      else a.nodes[previous.value := a.nodes[previous.value].(states := a.nodes[previous.value].states - {state})];
    a.(nodes := nodes[i := nodes[i].(states := nodes[i].states + {state})])
  }

  /** The arena after a command; one that is refused changes nothing. */
  ghost function After(a: Arena, command: Command): Arena
    requires Tree(a)
  {
    match command
    case TakeRuntimeId(id, from) =>
      if id !in a.names || from !in a.names then a
      else
        var taker, dying := a.names[id], a.names[from];
        assert NodeOk(a.nodes, dying);
        if taker == dying || dying == 0 || a.nodes[dying].dead then a
        else AfterTake(a, taker, dying)
    case ShareRuntimeId(id, from) =>
      if id !in a.names || from !in a.names then a
      else
        var taker, giver := a.names[id], a.names[from];
        if taker == giver || giver == 0 || a.nodes[giver].dead then a
        else WithNode(a, taker, a.nodes[taker].(runtimeId := a.nodes[giver].runtimeId))
    case Disconnect(id) =>
      if id !in a.names || a.names[id] == 0 || a.nodes[a.names[id]].dead then a
      else WithNode(a, a.names[id], a.nodes[a.names[id]].(dead := true))
    case DisconnectAtFirstChild(id) =>
      if id !in a.names || a.names[id] == 0 || a.nodes[a.names[id]].dead then a
      else WithNode(a, a.names[id], a.nodes[a.names[id]].(diesAtFirstChild := true))
    case ReplaceItems(id) =>
      if id !in a.names || a.nodes[a.names[id]].dead then a
      else ItemsReplaced(a, a.names[id])
    case Focus(id) =>
      if id !in a.names then a
      else WithState(a, a.focused, a.names[id], Focused).(focused := Some(a.names[id]))
    case Select(id) =>
      if id !in a.names then a
      else WithState(a, a.selected, a.names[id], Selected).(selected := Some(a.names[id]))
    case SetControllerFor(id, controlled) =>
      if id !in a.names || (controlled.Some? && controlled.value !in a.names) then a
      else
        var target := if controlled.None? then None else Some(a.names[controlled.value]);
        WithNode(a, a.names[id], a.nodes[a.names[id]].(controllerFor := target))
    case AskFirstChild(index) =>
      if index >= |a.nodes| || !a.nodes[index].diesAtFirstChild then a
      else WithNode(a, index, a.nodes[index].(dead := true))
  }

  // ---- What one command keeps ----

  /** A node changed in place, where it stands. */
  ghost predicate InPlace(node: Node, changed: Node, i: nat, count: nat) {
    && changed.parent == node.parent && changed.children == node.children
    && (node.dead ==> changed.dead)
    && (i == 0 ==> !changed.dead && !changed.diesAtFirstChild)
    && changed.runtimeId < count && Within(changed.controllerFor, count)
  }

  lemma InPlaceNodesOk(nodes: seq<Node>, i: nat, changed: Node)
    requires NodesOk(nodes) && i < |nodes| && InPlace(nodes[i], changed, i, |nodes|)
    ensures NodesOk(nodes[i := changed])
  {
    var after := nodes[i := changed];
    forall j | 0 <= j < |after| ensures NodeOk(after, j) {
      assert NodeOk(nodes, j);
    }
  }

  lemma InPlaceTree(a: Arena, i: nat, changed: Node)
    requires Tree(a) && i < |a.nodes| && InPlace(a.nodes[i], changed, i, |a.nodes|)
    ensures Tree(WithNode(a, i, changed))
    ensures DistinctIds(a.nodes) && changed.runtimeId == a.nodes[i].runtimeId ==>
              DistinctIds(WithNode(a, i, changed).nodes)
  {
    InPlaceNodesOk(a.nodes, i, changed);
  }

  lemma UnlistNodesOk(nodes: seq<Node>, dying: nat)
    requires NodesOk(nodes) && 0 < dying < |nodes|
    ensures nodes[dying].parent.Some? && nodes[dying].parent.value < dying
    ensures var p := nodes[dying].parent.value;
            NodesOk(nodes[p := nodes[p].(children := Without(nodes[p].children, dying))]
                         [dying := nodes[dying].(dead := true)])
  {
    assert NodeOk(nodes, dying);
    var p := nodes[dying].parent.value;
    var children := Without(nodes[p].children, dying);
    var after := nodes[p := nodes[p].(children := children)][dying := nodes[dying].(dead := true)];
    assert NodeOk(nodes, p);
    WithoutNoRepeat(nodes[p].children, dying);
    forall j | 0 <= j < |after| ensures NodeOk(after, j) {
      assert NodeOk(nodes, j);
      if j == p {
        forall k | 0 <= k < |children| ensures children[k] < |after| && after[children[k]].parent == Some(p) {
          assert children[k] in children;
          assert children[k] in nodes[p].children;
        }
      }
    }
  }

  lemma TakeTree(a: Arena, taker: nat, dying: nat)
    requires Tree(a) && taker < |a.nodes| && 0 < dying < |a.nodes| && taker != dying && !a.nodes[dying].dead
    ensures Within(a.nodes[dying].parent, |a.nodes|) && Tree(AfterTake(a, taker, dying))
    ensures DistinctIds(a.nodes) ==> DistinctIds(AfterTake(a, taker, dying).nodes)
  {
    UnlistNodesOk(a.nodes, dying);
    var p := a.nodes[dying].parent.value;
    var unlisted := a.nodes[p := a.nodes[p].(children := Without(a.nodes[p].children, dying))];
    var killed := unlisted[dying := a.nodes[dying].(dead := true)];
    assert NodeOk(killed, dying) && NodeOk(killed, taker);
    InPlaceNodesOk(killed, taker, killed[taker].(runtimeId := killed[dying].runtimeId));
  }

  lemma StateTree(a: Arena, previous: Option<nat>, i: nat, state: State)
    requires Tree(a) && i < |a.nodes| && Within(previous, |a.nodes|)
    ensures Tree(WithState(a, previous, i, state))
    ensures DistinctIds(a.nodes) ==> DistinctIds(WithState(a, previous, i, state).nodes)
  {
    var nodes := a.nodes;
    if previous.Some? {
      var p := previous.value;
      var changed := nodes[p].(states := nodes[p].states - {state});
      assert NodeOk(nodes, p);
      InPlaceTree(a, p, changed);
      nodes := nodes[p := changed];
    }
    assert NodeOk(nodes, i);
    InPlaceTree(a.(nodes := nodes), i, nodes[i].(states := nodes[i].states + {state}));
  }

  /** The arena is still a tree, and live nodes' runtime ids still apart. */
  ghost predicate Keeps(a: Arena, after: Arena) {
    Tree(after) && (DistinctIds(a.nodes) ==> DistinctIds(after.nodes))
  }

  lemma TakeKeeps(a: Arena, id: string, from: string)
    requires Tree(a)
    ensures Keeps(a, After(a, TakeRuntimeId(id, from)))
  {
    if After(a, TakeRuntimeId(id, from)) != a { TakeTree(a, a.names[id], a.names[from]); }
  }

  lemma ShareKeepsTree(a: Arena, id: string, from: string)
    requires Tree(a)
    ensures Tree(After(a, ShareRuntimeId(id, from)))
  {
    if id in a.names && from in a.names {
      var taker, giver := a.names[id], a.names[from];
      assert NodeOk(a.nodes, taker) && NodeOk(a.nodes, giver);
      InPlaceTree(a, taker, a.nodes[taker].(runtimeId := a.nodes[giver].runtimeId));
    }
  }

  lemma DisconnectKeeps(a: Arena, id: string)
    requires Tree(a)
    ensures Keeps(a, After(a, Disconnect(id)))
    ensures Keeps(a, After(a, DisconnectAtFirstChild(id)))
  {
    if id in a.names && a.names[id] != 0 {
      var i := a.names[id];
      assert NodeOk(a.nodes, i);
      InPlaceTree(a, i, a.nodes[i].(dead := true));
      InPlaceTree(a, i, a.nodes[i].(diesAtFirstChild := true));
    }
  }

  lemma MarkKeeps(a: Arena, id: string)
    requires Tree(a)
    ensures Keeps(a, After(a, Focus(id)))
    ensures Keeps(a, After(a, Select(id)))
  {
    if id in a.names {
      StateTree(a, a.focused, a.names[id], Focused);
      StateTree(a, a.selected, a.names[id], Selected);
    }
  }

  lemma ControlKeeps(a: Arena, id: string, controlled: Option<string>)
    requires Tree(a)
    ensures Keeps(a, After(a, SetControllerFor(id, controlled)))
  {
    if id in a.names && (controlled.None? || controlled.value in a.names) {
      var i := a.names[id];
      assert NodeOk(a.nodes, i);
      var target := if controlled.None? then None else Some(a.names[controlled.value]);
      InPlaceTree(a, i, a.nodes[i].(controllerFor := target));
    }
  }

  lemma AskKeeps(a: Arena, index: nat)
    requires Tree(a)
    ensures Keeps(a, After(a, AskFirstChild(index)))
  {
    if index < |a.nodes| && a.nodes[index].diesAtFirstChild {
      assert NodeOk(a.nodes, index);
      InPlaceTree(a, index, a.nodes[index].(dead := true));
    }
  }

  lemma ReplaceKeeps(a: Arena, id: string)
    requires Tree(a)
    ensures Keeps(a, After(a, ReplaceItems(id)))
  {
    if id in a.names { ItemsReplacedTree(a, a.names[id]); }
  }

  /** Every command keeps the arena a tree; every command but `share-runtime-id`
      keeps live nodes' runtime ids apart. */
  lemma CommandKeepsTree(a: Arena, command: Command)
    requires Tree(a)
    ensures Tree(After(a, command))
    ensures !command.ShareRuntimeId? ==> Keeps(a, After(a, command))
  {
    match command
    case TakeRuntimeId(id, from) => TakeKeeps(a, id, from);
    case ShareRuntimeId(id, from) => ShareKeepsTree(a, id, from);
    case Disconnect(id) => DisconnectKeeps(a, id);
    case DisconnectAtFirstChild(id) => DisconnectKeeps(a, id);
    case ReplaceItems(id) => ReplaceKeeps(a, id);
    case Focus(id) => MarkKeeps(a, id);
    case Select(id) => MarkKeeps(a, id);
    case SetControllerFor(id, controlled) => ControlKeeps(a, id, controlled);
    case AskFirstChild(index) => AskKeeps(a, index);
  }

  lemma RenamedStaysNamed(names: map<string, nat>, dying: seq<nat>, base: nat, x: nat)
    requires Named(names, x)
    ensures Named(RenamedNames(names, dying, base), Renamed(dying, base, x))
  {
    var name :| name in names && names[name] == x;
    assert RenamedNames(names, dying, base)[name] == Renamed(dying, base, x);
  }

  lemma ReplaceKeepsNamed(a: Arena, top: nat)
    requires Tree(a) && AllNamed(a) && top < |a.nodes|
    ensures AllNamed(ItemsReplaced(a, top))
  {
    ItemsReplacedForm(a, top);
    FormKeepsNamed(a, ItemsReplaced(a, top), Dying(a, top), top);
  }

  lemma FormKeepsNamed(a: Arena, r: Arena, dying: seq<nat>, top: nat)
    requires ReplacedForm(a, r, dying, top) && Distinct(dying) && AllNamed(a)
    ensures AllNamed(r)
  {
    var base := |a.nodes|;
    forall i: nat | i < |r.nodes| && !r.nodes[i].dead ensures Named(r.names, i) {
      if i < base {
        assert StaysAs(a.nodes[i], r.nodes[i], dying, base, i, top);
        RenamedStaysNamed(a.names, dying, base, i);
      } else {
        var k := i - base;
        assert Isomorphic(a.nodes[dying[k]], r.nodes[base + k], dying, base, k);
        RenamedStaysNamed(a.names, dying, base, dying[k]);
        assert IndexOf(dying, dying[k]) == k;
      }
    }
  }

  /** No node is added, named otherwise or brought back to life. */
  ghost predicate OnlyDies(a: Arena, r: Arena) {
    && r.names == a.names && |r.nodes| == |a.nodes|
    && forall i :: 0 <= i < |r.nodes| && a.nodes[i].dead ==> r.nodes[i].dead
  }

  lemma TakeOnlyKills(a: Arena, id: string, from: string)
    requires Tree(a)
    ensures OnlyDies(a, After(a, TakeRuntimeId(id, from)))
  {
    if id in a.names && from in a.names { assert NodeOk(a.nodes, a.names[from]); }
  }

  lemma ShareOnlyKills(a: Arena, id: string, from: string)
    requires Tree(a)
    ensures OnlyDies(a, After(a, ShareRuntimeId(id, from)))
  {
  }

  lemma SetOnlyKills(a: Arena, id: string, controlled: Option<string>)
    requires Tree(a)
    ensures OnlyDies(a, After(a, SetControllerFor(id, controlled)))
  {
  }

  lemma OthersOnlyKill(a: Arena, command: Command)
    requires Tree(a) && !command.ReplaceItems?
    ensures OnlyDies(a, After(a, command))
  {
    match command
    case TakeRuntimeId(id, from) => TakeOnlyKills(a, id, from);
    case ShareRuntimeId(id, from) => ShareOnlyKills(a, id, from);
    case Disconnect(id) =>
    case DisconnectAtFirstChild(id) =>
    case Focus(id) =>
    case Select(id) =>
    case SetControllerFor(id, controlled) => SetOnlyKills(a, id, controlled);
    case AskFirstChild(index) =>
  }

  /** Every command keeps every live node addressable by a fixture id. */
  lemma CommandKeepsNamed(a: Arena, command: Command)
    requires Tree(a) && AllNamed(a)
    ensures AllNamed(After(a, command))
  {
    if command.ReplaceItems? {
      if After(a, command) != a { ReplaceKeepsNamed(a, a.names[command.id]); }
    } else {
      OthersOnlyKill(a, command);
    }
  }

  // ---- Runs ----

  ghost function Run(a: Arena, commands: seq<Command>): (r: Arena)
    requires Tree(a)
    ensures Tree(r)
  {
    if commands == [] then a
    else
      var before := Run(a, commands[..|commands| - 1]);
      CommandKeepsTree(before, commands[|commands| - 1]);
      After(before, commands[|commands| - 1])
  }

  /** Every run from a tree ends in a tree, and without `share-runtime-id` live
      nodes keep distinct runtime ids. */
  lemma {:induction false} RunKeepsIds(a: Arena, commands: seq<Command>)
    requires Tree(a) && DistinctIds(a.nodes)
    requires forall k :: 0 <= k < |commands| ==> !commands[k].ShareRuntimeId?
    ensures DistinctIds(Run(a, commands).nodes)
  {
    if commands != [] {
      var n := |commands| - 1;
      RunKeepsIds(a, commands[..n]);
      CommandKeepsTree(Run(a, commands[..n]), commands[n]);
    }
  }

  lemma {:induction false} RunKeepsNamed(a: Arena, commands: seq<Command>)
    requires Tree(a) && AllNamed(a)
    ensures AllNamed(Run(a, commands))
  {
    if commands != [] {
      var n := |commands| - 1;
      RunKeepsNamed(a, commands[..n]);
      CommandKeepsNamed(Run(a, commands[..n]), commands[n]);
    }
  }

  /** From any fixture with distinct ids, every run of the commands ends in a
      tree whose live nodes all have names, and, without `share-runtime-id`,
      runtime ids of their own. */
  lemma EveryRunKeepsTheTree(root: FixtureNode, a: Arena, commands: seq<Command>)
    requires Built(root, a) && Distinct(Ids(root))
    ensures Tree(a) && Tree(Run(a, commands)) && AllNamed(Run(a, commands))
    ensures (forall k :: 0 <= k < |commands| ==> !commands[k].ShareRuntimeId?) ==>
              DistinctIds(Run(a, commands).nodes)
  {
    BuiltIsTree(root, a);
    RunKeepsNamed(a, commands);
    if forall k :: 0 <= k < |commands| ==> !commands[k].ShareRuntimeId? { RunKeepsIds(a, commands); }
  }

  /** `share-runtime-id` is the exception: done, it leaves two live nodes with
      one runtime id exactly when the node that took it lives. */
  lemma ShareMakesIdsMeet(a: Arena, id: string, from: string)
    requires Tree(a) && DistinctIds(a.nodes) && id in a.names && from in a.names
    requires a.names[id] != a.names[from] && a.names[from] != 0 && !a.nodes[a.names[from]].dead
    ensures DistinctIds(After(a, ShareRuntimeId(id, from)).nodes) <==> a.nodes[a.names[id]].dead
  {
    var taker, giver := a.names[id], a.names[from];
    var nodes := After(a, ShareRuntimeId(id, from)).nodes;
    assert nodes[taker].runtimeId == nodes[giver].runtimeId;
  }

  // ---- Siblings ----

  /** The sibling `offset` places from node `index`. */
  function Sibling(a: Arena, index: nat, offset: int): Option<nat>
    requires index < |a.nodes| && Within(a.nodes[index].parent, |a.nodes|)
  {
    if a.nodes[index].parent.None? then None
    else
      var siblings := a.nodes[a.nodes[index].parent.value].children;
      if index !in siblings then None
      else
        var target := Position(siblings, index) + offset;
        if 0 <= target < |siblings| then Some(siblings[target]) else None
  }

  /** `IndexOf`, computed. */
  function Position(s: seq<nat>, x: nat): (k: nat)
    requires x in s
    ensures k == IndexOf(s, x)
  {
    if s[0] == x then 0 else 1 + Position(s[1..], x)
  }

  /** In a tree a step to a sibling and the step back undo each other. */
  lemma SiblingsUndo(a: Arena, index: nat, offset: int)
    requires Tree(a) && index < |a.nodes| && NodeOk(a.nodes, index)
    requires Sibling(a, index, offset).Some?
    ensures var sibling := Sibling(a, index, offset).value;
            sibling < |a.nodes| && NodeOk(a.nodes, sibling) && Sibling(a, sibling, -offset) == Some(index)
  {
    var p := a.nodes[index].parent.value;
    var siblings := a.nodes[p].children;
    var at := Position(siblings, index);
    var sibling := Sibling(a, index, offset).value;
    assert NodeOk(a.nodes, p);
    assert siblings[at + offset] == sibling;
    assert NodeOk(a.nodes, sibling);
    assert Position(siblings, sibling) == at + offset;
  }
}
