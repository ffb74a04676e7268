/** The scripted tree of mockapp (crates/mockapp/src/tree.rs) as a value: an
    arena of nodes, what the fixture ids name, and the focused and selected
    nodes; and what copying part of it does. */
module Arenas {
  import opened Basics

  /** A node's fields that no command of the tree looks at. */
  datatype Details = Details(role: string, name: Option<string>, value: Option<string>,
                             description: Option<string>, text: Option<string>)

  datatype State = Focused | Selected | Other(name: string)

  datatype Node = Node(
    details: Details,
    states: set<State>,
    controllerFor: Option<nat>,
    parent: Option<nat>,
    children: seq<nat>,
    runtimeId: nat,
    dead: bool,
    diesAtFirstChild: bool)

  datatype Arena = Arena(
    nodes: seq<Node>,
    names: map<string, nat>,
    focused: Option<nat>,
    selected: Option<nat>)

  // ---- Renaming ----

  ghost predicate FirstAt(s: seq<nat>, x: nat, k: nat) {
    k < |s| && s[k] == x && forall j :: 0 <= j < k ==> s[j] != x
  }

  lemma {:induction false} FirstExists(s: seq<nat>, x: nat)
    requires x in s
    ensures exists k: nat :: FirstAt(s, x, k)
  {
    if s[0] == x {
      assert FirstAt(s, x, 0);
    } else {
      FirstExists(s[1..], x);
      var k: nat :| FirstAt(s[1..], x, k);
      assert FirstAt(s, x, k + 1);
    }
  }

  ghost function IndexOf(s: seq<nat>, x: nat): (k: nat)
    requires x in s
    ensures FirstAt(s, x, k)
  {
    FirstExists(s, x);
    var k: nat :| FirstAt(s, x, k);
    k
  }

  /** What names node `x` once each node `dying[k]` is replaced by `base + k`. */
  ghost function Renamed(dying: seq<nat>, base: nat, x: nat): nat {
    if x in dying then base + IndexOf(dying, x) else x
  }

  ghost function RenamedOption(dying: seq<nat>, base: nat, x: Option<nat>): Option<nat> {
    if x.None? then None else Some(Renamed(dying, base, x.value))
  }

  /** Replacing two lists of nodes one after the other replaces both. */
  lemma RenamedConcat(p: seq<nat>, q: seq<nat>, base: nat, x: nat)
    requires forall k :: 0 <= k < |q| ==> q[k] < base
    ensures Renamed(p + q, base, x) == Renamed(q, base + |p|, Renamed(p, base, x))
  {
    if x in p {
      var k, j := IndexOf(p, x), IndexOf(p + q, x);
      assert (p + q)[k] == x;
      assert k == j;
      assert base + k !in q;
    } else if x in q {
      var k, j := IndexOf(q, x), IndexOf(p + q, x);
      assert (p + q)[|p| + k] == x;
      assert j >= |p| && (p + q)[j] == q[j - |p|];
      assert j == |p| + k;
    }
  }

  lemma RenamedInjective(dying: seq<nat>, base: nat, x: nat, y: nat)
    requires x < base && y < base && Renamed(dying, base, x) == Renamed(dying, base, y)
    ensures x == y
  {
  }

  // ---- Copies ----

  /** Which nodes are copied, in order, and each copy's parent and children. */
  datatype Plan = Plan(dying: seq<nat>, up: seq<nat>, kids: seq<seq<nat>>)

  ghost predicate PlanFor(plan: Plan, base: nat) {
    |plan.up| == |plan.dying| && |plan.kids| == |plan.dying| && forall k :: 0 <= k < |plan.dying| ==> plan.dying[k] < base
  }

  function Joined(p: Plan, q: Plan): Plan {
    Plan(p.dying + q.dying, p.up + q.up, p.kids + q.kids)
  }

  ghost function Kept(node: Node, plan: Plan, base: nat, i: nat): Node {
    node.(controllerFor := RenamedOption(plan.dying, base, node.controllerFor), dead := node.dead || i in plan.dying)
  }

  ghost function CopyOf(node: Node, plan: Plan, base: nat, k: nat): Node
    requires PlanFor(plan, base) && k < |plan.dying|
  {
    node.(controllerFor := RenamedOption(plan.dying, base, node.controllerFor),
          parent := Some(plan.up[k]), children := plan.kids[k], runtimeId := base + k)
  }

  ghost function CopiedNode(nodes: seq<Node>, plan: Plan, i: nat): Node
    requires PlanFor(plan, |nodes|) && i < |nodes| + |plan.dying|
  {
    if i < |nodes| then Kept(nodes[i], plan, |nodes|, i)
    else CopyOf(nodes[plan.dying[i - |nodes|]], plan, |nodes|, i - |nodes|)
  }

  ghost function CopiedNodes(nodes: seq<Node>, plan: Plan): (r: seq<Node>)
    requires PlanFor(plan, |nodes|)
    ensures |r| == |nodes| + |plan.dying|
    ensures forall i :: 0 <= i < |r| ==> r[i] == CopiedNode(nodes, plan, i)
  {
    seq(|nodes| + |plan.dying|, i requires 0 <= i < |nodes| + |plan.dying| => CopiedNode(nodes, plan, i))
  }

  /** The arena once the nodes `plan.dying` have died, each copied to a fresh
      index at the end, and everything that named one names its copy. */
  ghost function Copied(a: Arena, plan: Plan): Arena
    requires PlanFor(plan, |a.nodes|)
  {
    var base := |a.nodes|;
    Arena(CopiedNodes(a.nodes, plan),
          RenamedNames(a.names, plan.dying, base),
          RenamedOption(plan.dying, base, a.focused),
          RenamedOption(plan.dying, base, a.selected))
  }

  /** `q` can be carried out after `p`. */
  ghost predicate Apart(p: Plan, q: Plan, base: nat) {
    && PlanFor(p, base) && PlanFor(q, base)
    && forall k :: 0 <= k < |q.dying| ==> q.dying[k] !in p.dying
  }

  ghost function RenamedNames(names: map<string, nat>, dying: seq<nat>, base: nat): map<string, nat> {
    map name | name in names :: Renamed(dying, base, names[name])
  }

  lemma NamesJoined(names: map<string, nat>, p: seq<nat>, q: seq<nat>, base: nat)
    requires forall k :: 0 <= k < |q| ==> q[k] < base
    ensures RenamedNames(names, p + q, base) == RenamedNames(RenamedNames(names, p, base), q, base + |p|)
  {
    forall name | name in names
      ensures Renamed(p + q, base, names[name]) == Renamed(q, base + |p|, Renamed(p, base, names[name]))
    {
      RenamedConcat(p, q, base, names[name]);
    }
  }

  lemma OptionJoined(x: Option<nat>, p: seq<nat>, q: seq<nat>, base: nat)
    requires forall k :: 0 <= k < |q| ==> q[k] < base
    ensures RenamedOption(p + q, base, x) == RenamedOption(q, base + |p|, RenamedOption(p, base, x))
  {
    if x.Some? { RenamedConcat(p, q, base, x.value); }
  }

  lemma CopiedNodeJoined(nodes: seq<Node>, p: Plan, q: Plan, after: seq<Node>, i: nat)
    requires Apart(p, q, |nodes|) && after == CopiedNodes(nodes, p) && i < |after| + |q.dying|
    ensures CopiedNode(nodes, Joined(p, q), i) == CopiedNode(after, q, i)
  {
    var base := |nodes|;
    if i < base {
      OptionJoined(nodes[i].controllerFor, p.dying, q.dying, base);
    } else if i < |after| {
      OptionJoined(nodes[p.dying[i - base]].controllerFor, p.dying, q.dying, base);
      assert i !in q.dying;
    } else {
      var k := i - |after|;
      OptionJoined(nodes[q.dying[k]].controllerFor, p.dying, q.dying, base);
      assert after[q.dying[k]] == CopiedNode(nodes, p, q.dying[k]);
      assert (p.dying + q.dying)[i - base] == q.dying[k];
    }
  }

  lemma CopiedNodesJoined(nodes: seq<Node>, p: Plan, q: Plan)
    requires Apart(p, q, |nodes|)
    ensures CopiedNodes(nodes, Joined(p, q)) == CopiedNodes(CopiedNodes(nodes, p), q)
  {
    var after := CopiedNodes(nodes, p);
    var left, right := CopiedNodes(nodes, Joined(p, q)), CopiedNodes(after, q);
    forall i | 0 <= i < |left| ensures left[i] == right[i] {
      CopiedNodeJoined(nodes, p, q, after, i);
    }
  }

  /** Two copyings one after the other are one. */
  lemma CopiedJoined(a: Arena, p: Plan, q: Plan)
    requires Apart(p, q, |a.nodes|)
    ensures Copied(a, Joined(p, q)) == Copied(Copied(a, p), q)
  {
    var left, right := Copied(a, Joined(p, q)), Copied(Copied(a, p), q);
    assert left.nodes == right.nodes by { CopiedNodesJoined(a.nodes, p, q); }
    assert left.names == right.names by { NamesJoined(a.names, p.dying, q.dying, |a.nodes|); }
    assert left.focused == right.focused by { OptionJoined(a.focused, p.dying, q.dying, |a.nodes|); }
    assert left.selected == right.selected by { OptionJoined(a.selected, p.dying, q.dying, |a.nodes|); }
  }

  /** The children of one node set. */
  function WithChildren(a: Arena, i: nat, children: seq<nat>): Arena
    requires i < |a.nodes|
  {
    a.(nodes := a.nodes[i := a.nodes[i].(children := children)])
  }

  /** Setting a copy's children is part of the plan. */
  lemma CopiedWithChildren(a: Arena, plan: Plan, k: nat, children: seq<nat>)
    requires PlanFor(plan, |a.nodes|) && k < |plan.dying|
    ensures WithChildren(Copied(a, plan), |a.nodes| + k, children)
            == Copied(a, plan.(kids := plan.kids[k := children]))
  {
    var base, nodes := |a.nodes|, CopiedNodes(a.nodes, plan);
    var plan' := plan.(kids := plan.kids[k := children]);
    var left := nodes[base + k := nodes[base + k].(children := children)];
    var right := CopiedNodes(a.nodes, plan');
    assert left == right;
  }

  // ---- The plan of a replacement ----

  /** Every list of children points down the arena. */
  ghost predicate Downward(lists: seq<seq<nat>>) {
    forall i :: 0 <= i < |lists| ==> Between(lists[i], i, |lists|)
  }

  ghost predicate Between(list: seq<nat>, above: nat, count: nat) {
    forall k :: 0 <= k < |list| ==> above < list[k] < count
  }

  const NOTHING: Plan := Plan([], [], [])

  /** Copies node `index` under `parent`, then everything under it, depth first,
      the first copy at `base`. */
  ghost function PlanOf(lists: seq<seq<nat>>, index: nat, parent: nat, base: nat): Plan
    requires Downward(lists) && index < |lists|
    decreases |lists| - index, |lists[index]| + 1
  {
    var inner := PlanAll(lists, lists[index], index, base, base + 1);
    Joined(Plan([index], [parent], [Tops(lists, lists[index], index, base, base + 1)]), inner)
  }

  /** Copies the nodes `list`, each above `above`, and everything under them. */
  ghost function PlanAll(lists: seq<seq<nat>>, list: seq<nat>, above: nat, parent: nat, base: nat): Plan
    requires Downward(lists) && Between(list, above, |lists|)
    decreases |lists| - above, |list|
  {
    if list == [] then NOTHING
    else
      var n := |list| - 1;
      var before := PlanAll(lists, list[..n], above, parent, base);
      Joined(before, PlanOf(lists, list[n], parent, base + |before.dying|))
  }

  /** The copies of the nodes `list` themselves. */
  ghost function Tops(lists: seq<seq<nat>>, list: seq<nat>, above: nat, parent: nat, base: nat): (tops: seq<nat>)
    requires Downward(lists) && Between(list, above, |lists|)
    ensures |tops| == |list|
    decreases |lists| - above, |list|
  {
    if list == [] then []
    else
      var n := |list| - 1;
      Tops(lists, list[..n], above, parent, base)
      + [base + |PlanAll(lists, list[..n], above, parent, base).dying|]
  }

  /** A node and everything under it, depth first. */
  ghost function Preorder(lists: seq<seq<nat>>, index: nat): seq<nat>
    requires Downward(lists) && index < |lists|
    decreases |lists| - index, |lists[index]| + 1
  {
    [index] + PreorderAll(lists, lists[index], index)
  }

  ghost function PreorderAll(lists: seq<seq<nat>>, list: seq<nat>, above: nat): seq<nat>
    requires Downward(lists) && Between(list, above, |lists|)
    decreases |lists| - above, |list|
  {
    if list == [] then []
    else PreorderAll(lists, list[..|list| - 1], above) + Preorder(lists, list[|list| - 1])
  }

  /** Who dies does not depend on where the copies go. */
  lemma {:induction false} PlanOfPreorder(lists: seq<seq<nat>>, index: nat, parent: nat, base: nat)
    requires Downward(lists) && index < |lists|
    ensures PlanOf(lists, index, parent, base).dying == Preorder(lists, index)
    decreases |lists| - index, |lists[index]| + 1
  {
    PlanAllPreorder(lists, lists[index], index, base, base + 1);
  }

  lemma PlanAllStep(lists: seq<seq<nat>>, list: seq<nat>, above: nat, parent: nat, base: nat,
                    before: Plan, first: seq<nat>, last: Plan)
    requires Downward(lists) && Between(list, above, |lists|) && list != []
    requires before == PlanAll(lists, list[..|list| - 1], above, parent, base)
    requires first == Tops(lists, list[..|list| - 1], above, parent, base)
    requires last == PlanOf(lists, list[|list| - 1], parent, base + |before.dying|)
    ensures PlanAll(lists, list, above, parent, base) == Joined(before, last)
    ensures Tops(lists, list, above, parent, base) == first + [base + |before.dying|]
  {
  }

  lemma {:induction false} PlanAllPreorder(lists: seq<seq<nat>>, list: seq<nat>, above: nat, parent: nat, base: nat)
    requires Downward(lists) && Between(list, above, |lists|)
    ensures PlanAll(lists, list, above, parent, base).dying == PreorderAll(lists, list, above)
    decreases |lists| - above, |list|
  {
    if list != [] {
      var n := |list| - 1;
      var before := PlanAll(lists, list[..n], above, parent, base);
      var last := PlanOf(lists, list[n], parent, base + |before.dying|);
      PlanAllPreorder(lists, list[..n], above, parent, base);
      PlanOfPreorder(lists, list[n], parent, base + |before.dying|);
      PlanAllStep(lists, list, above, parent, base, before, Tops(lists, list[..n], above, parent, base), last);
      PreorderStep(lists, list, above);
    }
  }

  lemma PreorderStep(lists: seq<seq<nat>>, list: seq<nat>, above: nat)
    requires Downward(lists) && Between(list, above, |lists|) && list != []
    ensures PreorderAll(lists, list, above) ==
            PreorderAll(lists, list[..|list| - 1], above) + Preorder(lists, list[|list| - 1])
  {
  }

  lemma {:induction false} PreorderBetween(lists: seq<seq<nat>>, index: nat)
    requires Downward(lists) && index < |lists|
    ensures forall x :: x in Preorder(lists, index) ==> index <= x < |lists|
    decreases |lists| - index, |lists[index]| + 1
  {
    PreorderAllBetween(lists, lists[index], index);
  }

  lemma {:induction false} PreorderAllBetween(lists: seq<seq<nat>>, list: seq<nat>, above: nat)
    requires Downward(lists) && Between(list, above, |lists|)
    ensures forall x :: x in PreorderAll(lists, list, above) ==> above < x < |lists|
    decreases |lists| - above, |list|
  {
    if list != [] {
      var n := |list| - 1;
      PreorderAllBetween(lists, list[..n], above);
      PreorderBetween(lists, list[n]);
    }
  }

  lemma {:induction false} PreorderPrefix(lists: seq<seq<nat>>, list: seq<nat>, above: nat, k: nat)
    requires Downward(lists) && Between(list, above, |lists|) && k <= |list|
    ensures PreorderAll(lists, list[..k], above) <= PreorderAll(lists, list, above)
  {
    if k == |list| {
      assert list[..k] == list;
    } else {
      var n := |list| - 1;
      PreorderPrefix(lists, list[..n], above, k);
      assert list[..n][..k] == list[..k];
    }
  }
}
