/** What `replace-items` does to a tree (crates/mockapp/src/tree.rs): each
    subtree gets an isomorphic copy, and the arena stays a tree. */
module Replacement {
  import opened Basics
  import opened Arenas

  // ---- The plan is sound ----

  ghost predicate Increasing(s: seq<nat>) {
    forall i, j :: 0 <= i < j < |s| ==> s[i] < s[j]
  }

  /** `copies` are the copies of `originals`, in order, made under `parent`. */
  ghost predicate CopiesOf(plan: Plan, copies: seq<nat>, originals: seq<nat>, parent: nat, base: nat)
    requires |plan.up| == |plan.dying|
  {
    && |copies| == |originals| && Increasing(copies)
    && forall j :: 0 <= j < |copies| ==>
         && base <= copies[j] < base + |plan.dying|
         && plan.up[copies[j] - base] == parent
         && plan.dying[copies[j] - base] == originals[j]
  }

  /** Copy `k`'s parent comes before it and lists it. */
  ghost predicate Listed(plan: Plan, tops: seq<nat>, parent: nat, base: nat, k: nat)
    requires |plan.up| == |plan.dying| == |plan.kids| && k < |plan.dying|
  {
    || (plan.up[k] == parent && base + k in tops)
    || (base <= plan.up[k] < base + k && base + k in plan.kids[plan.up[k] - base])
  }

  /** Copy `k` comes after its parent, which lists it, and its children are the
      copies of the original's. */
  ghost predicate CopySound(lists: seq<seq<nat>>, plan: Plan, tops: seq<nat>, parent: nat, base: nat, k: nat)
    requires |plan.up| == |plan.dying| == |plan.kids| && k < |plan.dying|
  {
    && plan.dying[k] < |lists|
    && CopiesOf(plan, plan.kids[k], lists[plan.dying[k]], base + k, base)
    && Listed(plan, tops, parent, base, k)
  }

  ghost predicate Sound(lists: seq<seq<nat>>, plan: Plan, tops: seq<nat>, list: seq<nat>, parent: nat, base: nat) {
    && |plan.up| == |plan.dying| == |plan.kids|
    && CopiesOf(plan, tops, list, parent, base)
    && forall k :: 0 <= k < |plan.dying| ==> CopySound(lists, plan, tops, parent, base, k)
  }

  lemma CopiesOfJoinedLeft(p: Plan, q: Plan, copies: seq<nat>, originals: seq<nat>, parent: nat, base: nat)
    requires |p.up| == |p.dying| && |q.up| == |q.dying| && CopiesOf(p, copies, originals, parent, base)
    ensures CopiesOf(Joined(p, q), copies, originals, parent, base)
  {
  }

  lemma CopiesOfJoinedRight(p: Plan, q: Plan, copies: seq<nat>, originals: seq<nat>, parent: nat, base: nat)
    requires |p.up| == |p.dying| && |q.up| == |q.dying|
    requires CopiesOf(q, copies, originals, parent, base + |p.dying|)
    ensures CopiesOf(Joined(p, q), copies, originals, parent, base)
  {
  }

  lemma CopiesOfTops(plan: Plan, tp: seq<nat>, lp: seq<nat>, tq: seq<nat>, lq: seq<nat>, parent: nat, base: nat, mid: nat)
    requires |plan.up| == |plan.dying|
    requires CopiesOf(plan, tp, lp, parent, base) && CopiesOf(plan, tq, lq, parent, base)
    requires (forall j :: 0 <= j < |tp| ==> tp[j] < mid) && (forall j :: 0 <= j < |tq| ==> mid <= tq[j])
    ensures CopiesOf(plan, tp + tq, lp + lq, parent, base)
  {
    var tops := tp + tq;
    forall i, j | 0 <= i < j < |tops| ensures tops[i] < tops[j] {
      if j >= |tp| { assert tops[j] == tq[j - |tp|]; }
      if i >= |tp| { assert tops[i] == tq[i - |tp|]; }
    }
  }

  lemma ListedLeft(p: Plan, tp: seq<nat>, q: Plan, tq: seq<nat>, parent: nat, base: nat, k: nat)
    requires |p.up| == |p.dying| == |p.kids| && |q.up| == |q.dying| == |q.kids|
    requires k < |p.dying| && Listed(p, tp, parent, base, k)
    ensures Listed(Joined(p, q), tp + tq, parent, base, k)
  {
  }

  lemma ListedRight(p: Plan, tp: seq<nat>, q: Plan, tq: seq<nat>, parent: nat, base: nat, k: nat)
    requires |p.up| == |p.dying| == |p.kids| && |q.up| == |q.dying| == |q.kids|
    requires k < |q.dying| && Listed(q, tq, parent, base + |p.dying|, k)
    ensures Listed(Joined(p, q), tp + tq, parent, base, |p.dying| + k)
  {
    var plan, i := Joined(p, q), |p.dying| + k;
    assert plan.up[i] == q.up[k];
    if !(q.up[k] == parent && base + i in tq) {
      assert plan.kids[q.up[k] - base] == q.kids[q.up[k] - base - |p.dying|];
    }
  }

  lemma CopySoundLeft(lists: seq<seq<nat>>, p: Plan, tp: seq<nat>, q: Plan, tq: seq<nat>, parent: nat, base: nat, k: nat)
    requires |p.up| == |p.dying| == |p.kids| && |q.up| == |q.dying| == |q.kids|
    requires k < |p.dying| && CopySound(lists, p, tp, parent, base, k)
    ensures CopySound(lists, Joined(p, q), tp + tq, parent, base, k)
  {
    CopiesOfJoinedLeft(p, q, p.kids[k], lists[p.dying[k]], base + k, base);
    ListedLeft(p, tp, q, tq, parent, base, k);
  }

  lemma CopySoundRight(lists: seq<seq<nat>>, p: Plan, tp: seq<nat>, q: Plan, tq: seq<nat>, parent: nat, base: nat, k: nat)
    requires |p.up| == |p.dying| == |p.kids| && |q.up| == |q.dying| == |q.kids|
    requires k < |q.dying| && CopySound(lists, q, tq, parent, base + |p.dying|, k)
    ensures CopySound(lists, Joined(p, q), tp + tq, parent, base, |p.dying| + k)
  {
    CopiesOfJoinedRight(p, q, q.kids[k], lists[q.dying[k]], base + |p.dying| + k, base);
    ListedRight(p, tp, q, tq, parent, base, k);
  }

  /** Two sound plans, the second after the first, make a sound plan. */
  lemma SoundJoined(lists: seq<seq<nat>>, p: Plan, tp: seq<nat>, lp: seq<nat>,
                    q: Plan, tq: seq<nat>, lq: seq<nat>, parent: nat, base: nat)
    requires Sound(lists, p, tp, lp, parent, base) && Sound(lists, q, tq, lq, parent, base + |p.dying|)
    ensures Sound(lists, Joined(p, q), tp + tq, lp + lq, parent, base)
  {
    var plan, tops := Joined(p, q), tp + tq;
    CopiesOfJoinedLeft(p, q, tp, lp, parent, base);
    CopiesOfJoinedRight(p, q, tq, lq, parent, base);
    CopiesOfTops(plan, tp, lp, tq, lq, parent, base, base + |p.dying|);
    forall k | 0 <= k < |plan.dying| ensures CopySound(lists, plan, tops, parent, base, k) {
      if k < |p.dying| {
        CopySoundLeft(lists, p, tp, q, tq, parent, base, k);
      } else {
        CopySoundRight(lists, p, tp, q, tq, parent, base, k - |p.dying|);
      }
    }
  }

  lemma CopySoundBelow(lists: seq<seq<nat>>, index: nat, inner: Plan, tops: seq<nat>, parent: nat, base: nat, k: nat)
    requires |inner.up| == |inner.dying| == |inner.kids|
    requires k < |inner.dying| && CopySound(lists, inner, tops, base, base + 1, k)
    ensures CopySound(lists, Joined(Plan([index], [parent], [tops]), inner), [base], parent, base, k + 1)
  {
    var node := Plan([index], [parent], [tops]);
    var plan := Joined(node, inner);
    CopiesOfJoinedRight(node, inner, inner.kids[k], lists[inner.dying[k]], base + 1 + k, base);
    assert plan.up[k + 1] == inner.up[k];
    if inner.up[k] == base && base + 1 + k in tops {
      assert plan.kids[0] == tops;
    } else {
      assert plan.kids[inner.up[k] - base] == inner.kids[inner.up[k] - base - 1];
    }
  }

  /** A node put above a sound plan of its children. */
  lemma SoundNode(lists: seq<seq<nat>>, index: nat, inner: Plan, tops: seq<nat>, parent: nat, base: nat)
    requires index < |lists|
    requires Sound(lists, inner, tops, lists[index], base, base + 1)
    ensures Sound(lists, Joined(Plan([index], [parent], [tops]), inner), [base], [index], parent, base)
  {
    var node := Plan([index], [parent], [tops]);
    var plan := Joined(node, inner);
    CopiesOfJoinedRight(node, inner, tops, lists[index], base, base);
    forall k | 0 <= k < |plan.dying| ensures CopySound(lists, plan, [base], parent, base, k) {
      if k > 0 { CopySoundBelow(lists, index, inner, tops, parent, base, k - 1); }
    }
  }

  lemma {:induction false} PlanOfSound(lists: seq<seq<nat>>, index: nat, parent: nat, base: nat) returns (plan: Plan)
    requires Downward(lists) && index < |lists|
    ensures plan == PlanOf(lists, index, parent, base)
    ensures Sound(lists, plan, [base], [index], parent, base)
    decreases |lists| - index, |lists[index]| + 1
  {
    assert Between(lists[index], index, |lists|);
    var inner, tops := PlanAllSound(lists, lists[index], index, base, base + 1);
    SoundNode(lists, index, inner, tops, parent, base);
    plan := Joined(Plan([index], [parent], [tops]), inner);
  }

  lemma {:induction false} PlanAllSound(lists: seq<seq<nat>>, list: seq<nat>, above: nat, parent: nat, base: nat)
    returns (plan: Plan, tops: seq<nat>)
    requires Downward(lists) && Between(list, above, |lists|)
    ensures plan == PlanAll(lists, list, above, parent, base) && tops == Tops(lists, list, above, parent, base)
    ensures Sound(lists, plan, tops, list, parent, base)
    decreases |lists| - above, |list|
  {
    if list == [] {
      plan, tops := NOTHING, [];
      SoundNothing(lists, parent, base);
    } else {
      var n := |list| - 1;
      assert Between(list[..n], above, |lists|) && above < list[n] < |lists|;
      var before, first := PlanAllSound(lists, list[..n], above, parent, base);
      var last := PlanOfSound(lists, list[n], parent, base + |before.dying|);
      plan, tops := Joined(before, last), first + [base + |before.dying|];
      PlanAllStep(lists, list, above, parent, base, before, first, last);
      SoundStep(lists, list, before, first, last, parent, base);
    }
  }

  lemma SoundNothing(lists: seq<seq<nat>>, parent: nat, base: nat)
    ensures Sound(lists, NOTHING, [], [], parent, base)
  {
  }

  lemma SoundStep(lists: seq<seq<nat>>, list: seq<nat>, before: Plan, tops: seq<nat>, last: Plan, parent: nat, base: nat)
    requires list != [] && Sound(lists, before, tops, list[..|list| - 1], parent, base)
    requires var mid := base + |before.dying|; Sound(lists, last, [mid], [list[|list| - 1]], parent, mid)
    ensures Sound(lists, Joined(before, last), tops + [base + |before.dying|], list, parent, base)
  {
    var n := |list| - 1;
    SoundJoined(lists, before, tops, list[..n], last, [base + |before.dying|], [list[n]], parent, base);
    assert list == list[..n] + [list[n]];
  }

  // ---- Trees ----

  ghost predicate Within(x: Option<nat>, count: nat) {
    x.Some? ==> x.value < count
  }

  /** Node `i` has a parent before it, which lists it while it lives; the root
      has none, lives, and is not about to die. */
  ghost predicate ParentOk(nodes: seq<Node>, i: nat)
    requires i < |nodes|
  {
    var node := nodes[i];
    if i == 0 then node.parent.None? && !node.dead && !node.diesAtFirstChild
    else node.parent.Some? && node.parent.value < i
         && (!node.dead ==> i in nodes[node.parent.value].children)
  }

  /** Node `i`'s children point back to it, and each is listed once. */
  ghost predicate ChildrenOk(nodes: seq<Node>, i: nat)
    requires i < |nodes|
  {
    var children := nodes[i].children;
    && Distinct(children)
    && forall k :: 0 <= k < |children| ==> children[k] < |nodes| && nodes[children[k]].parent == Some(i)
  }

  ghost predicate NodeOk(nodes: seq<Node>, i: nat)
    requires i < |nodes|
  {
    && ParentOk(nodes, i) && ChildrenOk(nodes, i)
    && nodes[i].runtimeId < |nodes| && Within(nodes[i].controllerFor, |nodes|)
  }

  ghost predicate NodesOk(nodes: seq<Node>) {
    |nodes| > 0 && forall i :: 0 <= i < |nodes| ==> NodeOk(nodes, i)
  }

  /** Every fixture id names a node, and no two the same. */
  ghost predicate NamesOk(names: map<string, nat>, count: nat) {
    && (forall name :: name in names ==> names[name] < count)
    && (forall m, n :: m in names && n in names && names[m] == names[n] ==> m == n)
  }

  /** The arena is a tree. */
  ghost predicate Tree(a: Arena) {
    && NodesOk(a.nodes) && NamesOk(a.names, |a.nodes|)
    && Within(a.focused, |a.nodes|) && Within(a.selected, |a.nodes|)
  }

  /** No two live nodes share a runtime id. */
  ghost predicate DistinctIds(nodes: seq<Node>) {
    forall i, j :: 0 <= i < j < |nodes| && !nodes[i].dead && !nodes[j].dead ==>
      nodes[i].runtimeId != nodes[j].runtimeId
  }

  ghost function ChildLists(nodes: seq<Node>): (lists: seq<seq<nat>>)
    ensures |lists| == |nodes| && forall i :: 0 <= i < |lists| ==> lists[i] == nodes[i].children
  {
    seq(|nodes|, i requires 0 <= i < |nodes| => nodes[i].children)
  }

  lemma ChildAfterParent(nodes: seq<Node>, i: nat, k: nat)
    requires NodesOk(nodes) && i < |nodes| && k < |nodes[i].children|
    ensures i < nodes[i].children[k] < |nodes|
  {
    assert NodeOk(nodes, i);
    var c := nodes[i].children[k];
    assert NodeOk(nodes, c);
  }

  lemma ListsDownward(nodes: seq<Node>)
    requires NodesOk(nodes)
    ensures Downward(ChildLists(nodes))
  {
    var lists := ChildLists(nodes);
    forall i, k | 0 <= i < |lists| && 0 <= k < |lists[i]| ensures i < lists[i][k] < |lists| {
      ChildAfterParent(nodes, i, k);
    }
    assert forall i :: 0 <= i < |lists| ==> Between(lists[i], i, |lists|);
  }

  /** `i` stands somewhere under `top`, each node on the way listed by the next. */
  ghost predicate Below(nodes: seq<Node>, top: nat, i: nat)
    requires NodesOk(nodes) && i < |nodes|
    decreases i
  {
    assert NodeOk(nodes, i);
    nodes[i].parent.Some? && i in nodes[nodes[i].parent.value].children
    && (nodes[i].parent.value == top || Below(nodes, top, nodes[i].parent.value))
  }

  // ---- Who dies ----

  /** The plan that replaces every child of `top`. */
  ghost predicate Replacing(nodes: seq<Node>, plan: Plan, tops: seq<nat>, top: nat) {
    && NodesOk(nodes) && top < |nodes|
    && Sound(ChildLists(nodes), plan, tops, nodes[top].children, top, |nodes|)
  }

  /** A node that dies is a child of `top` or of another that dies. */
  lemma DyingParent(nodes: seq<Node>, plan: Plan, tops: seq<nat>, top: nat, k: nat)
    requires Replacing(nodes, plan, tops, top) && k < |plan.dying|
    ensures plan.dying[k] < |nodes|
    ensures plan.up[k] == top ==> |nodes| + k in tops && nodes[plan.dying[k]].parent == Some(top)
                                  && plan.dying[k] in nodes[top].children
    ensures plan.up[k] != top ==>
              && |nodes| <= plan.up[k] < |nodes| + k
              && |nodes| + k in plan.kids[plan.up[k] - |nodes|]
              && plan.dying[plan.up[k] - |nodes|] < |nodes|
              && nodes[plan.dying[k]].parent == Some(plan.dying[plan.up[k] - |nodes|])
              && plan.dying[k] in nodes[plan.dying[plan.up[k] - |nodes|]].children
  {
    var base, lists := |nodes|, ChildLists(nodes);
    assert CopySound(lists, plan, tops, top, base, k);
    assert NodeOk(nodes, top);
    if plan.up[k] == top {
      var j :| 0 <= j < |tops| && tops[j] == base + k;
      assert nodes[top].children[j] == plan.dying[k];
    } else {
      var u := plan.up[k] - base;
      assert CopySound(lists, plan, tops, top, base, u);
      var j :| 0 <= j < |plan.kids[u]| && plan.kids[u][j] == base + k;
      assert nodes[plan.dying[u]].children[j] == plan.dying[k];
      assert NodeOk(nodes, plan.dying[u]);
    }
  }

  lemma {:induction false} DyingAfterTop(nodes: seq<Node>, plan: Plan, tops: seq<nat>, top: nat, k: nat)
    requires Replacing(nodes, plan, tops, top) && k < |plan.dying|
    ensures top < plan.dying[k] < |nodes| && Below(nodes, top, plan.dying[k])
  {
    DyingParent(nodes, plan, tops, top, k);
    assert NodeOk(nodes, plan.dying[k]);
    if plan.up[k] != top { DyingAfterTop(nodes, plan, tops, top, plan.up[k] - |nodes|); }
  }

  lemma OneCopyEach(plan: Plan, copies: seq<nat>, originals: seq<nat>, parent: nat, base: nat, k: nat, m: nat)
    requires |plan.up| == |plan.dying| && CopiesOf(plan, copies, originals, parent, base) && Distinct(originals)
    requires k < |plan.dying| && m < |plan.dying| && plan.dying[k] == plan.dying[m]
    requires base + k in copies && base + m in copies
    ensures k == m
  {
    var i :| 0 <= i < |copies| && copies[i] == base + k;
    var j :| 0 <= j < |copies| && copies[j] == base + m;
    assert originals[i] == originals[j];
  }

  /** No node dies twice. */
  lemma {:induction false} DyingOnce(nodes: seq<Node>, plan: Plan, tops: seq<nat>, top: nat, k: nat, m: nat)
    requires Replacing(nodes, plan, tops, top) && k < |plan.dying| && m < |plan.dying|
    requires plan.dying[k] == plan.dying[m]
    ensures k == m
  {
    var base := |nodes|;
    DyingParent(nodes, plan, tops, top, k);
    DyingParent(nodes, plan, tops, top, m);
    if plan.up[k] == top && plan.up[m] == top {
      assert NodeOk(nodes, top);
      OneCopyEach(plan, tops, nodes[top].children, top, base, k, m);
    } else if plan.up[k] == top {
      DyingAfterTop(nodes, plan, tops, top, plan.up[m] - base);
    } else if plan.up[m] == top {
      DyingAfterTop(nodes, plan, tops, top, plan.up[k] - base);
    } else {
      var u := plan.up[k] - base;
      DyingOnce(nodes, plan, tops, top, u, plan.up[m] - base);
      assert CopySound(ChildLists(nodes), plan, tops, top, base, u);
      assert NodeOk(nodes, plan.dying[u]);
      OneCopyEach(plan, plan.kids[u], nodes[plan.dying[u]].children, base + u, base, k, m);
    }
  }

  /** Exactly the nodes below `top` die. */
  lemma {:induction false} DyingAreBelow(nodes: seq<Node>, plan: Plan, tops: seq<nat>, top: nat, i: nat)
    requires Replacing(nodes, plan, tops, top) && i < |nodes|
    ensures i in plan.dying <==> Below(nodes, top, i)
    decreases i
  {
    assert NodeOk(nodes, i);
    if i in plan.dying {
      var k :| 0 <= k < |plan.dying| && plan.dying[k] == i;
      DyingAfterTop(nodes, plan, tops, top, k);
    }
    if Below(nodes, top, i) {
      var p := nodes[i].parent.value;
      var j :| 0 <= j < |nodes[p].children| && nodes[p].children[j] == i;
      if p == top {
        assert plan.dying[tops[j] - |nodes|] == i;
      } else {
        DyingAreBelow(nodes, plan, tops, top, p);
        var k :| 0 <= k < |plan.dying| && plan.dying[k] == p;
        assert CopySound(ChildLists(nodes), plan, tops, top, |nodes|, k);
        assert plan.dying[plan.kids[k][j] - |nodes|] == i;
      }
    }
  }

  /** The copy of a dying node is where the plan puts it. */
  lemma RenamedDying(nodes: seq<Node>, plan: Plan, tops: seq<nat>, top: nat, k: nat)
    requires Replacing(nodes, plan, tops, top) && k < |plan.dying|
    ensures Renamed(plan.dying, |nodes|, plan.dying[k]) == |nodes| + k
  {
    var m := IndexOf(plan.dying, plan.dying[k]);
    DyingOnce(nodes, plan, tops, top, k, m);
  }

  // ---- The result ----

  /** The arena once every child of `top`, with everything under it, is replaced. */
  ghost function ItemsReplaced(a: Arena, top: nat): Arena
    requires Tree(a) && top < |a.nodes|
  {
    var lists := ChildLists(a.nodes);
    ListsDownward(a.nodes);
    var plan := PlanAll(lists, lists[top], top, top, |a.nodes|);
    assert PlanFor(plan, |a.nodes|) by {
      var p, tops := PlanAllSound(lists, lists[top], top, top, |a.nodes|);
      PlanBounded(a.nodes, p, tops, top);
    }
    WithChildren(Copied(a, plan), top, Tops(lists, lists[top], top, top, |a.nodes|))
  }

  lemma PlanBounded(nodes: seq<Node>, plan: Plan, tops: seq<nat>, top: nat)
    requires Replacing(nodes, plan, tops, top)
    ensures PlanFor(plan, |nodes|)
  {
    forall k | 0 <= k < |plan.dying| ensures plan.dying[k] < |nodes| {
      DyingParent(nodes, plan, tops, top, k);
    }
  }

  /** The nodes that die when the children of `top` are replaced, depth first. */
  ghost function Dying(a: Arena, top: nat): (dying: seq<nat>)
    requires Tree(a) && top < |a.nodes|
  {
    ListsDownward(a.nodes);
    var lists := ChildLists(a.nodes);
    PlanAll(lists, lists[top], top, top, |a.nodes|).dying
  }

  ghost function RenamedAll(dying: seq<nat>, base: nat, s: seq<nat>): (r: seq<nat>)
    ensures |r| == |s| && forall j :: 0 <= j < |r| ==> r[j] == Renamed(dying, base, s[j])
  {
    seq(|s|, j requires 0 <= j < |s| => Renamed(dying, base, s[j]))
  }

  /** The copies' children are the originals' children's copies. */
  lemma KidsRenamed(nodes: seq<Node>, plan: Plan, tops: seq<nat>, top: nat,
                    copies: seq<nat>, originals: seq<nat>, parent: nat)
    requires Replacing(nodes, plan, tops, top) && CopiesOf(plan, copies, originals, parent, |nodes|)
    ensures copies == RenamedAll(plan.dying, |nodes|, originals)
  {
    forall j | 0 <= j < |copies| ensures copies[j] == Renamed(plan.dying, |nodes|, originals[j]) {
      RenamedDying(nodes, plan, tops, top, copies[j] - |nodes|);
    }
  }

  /** A copy is its original, with everything it names renamed. */
  ghost predicate Isomorphic(original: Node, copy: Node, dying: seq<nat>, base: nat, k: nat) {
    copy == original.(controllerFor := RenamedOption(dying, base, original.controllerFor),
                      parent := RenamedOption(dying, base, original.parent),
                      children := RenamedAll(dying, base, original.children),
                      runtimeId := base + k)
  }

  lemma CopyIsomorphic(a: Arena, plan: Plan, tops: seq<nat>, top: nat, k: nat)
    requires Tree(a) && Replacing(a.nodes, plan, tops, top) && PlanFor(plan, |a.nodes|) && k < |plan.dying|
    ensures Isomorphic(a.nodes[plan.dying[k]], CopyOf(a.nodes[plan.dying[k]], plan, |a.nodes|, k),
                       plan.dying, |a.nodes|, k)
  {
    var base := |a.nodes|;
    DyingParent(a.nodes, plan, tops, top, k);
    assert CopySound(ChildLists(a.nodes), plan, tops, top, base, k);
    KidsRenamed(a.nodes, plan, tops, top, plan.kids[k], a.nodes[plan.dying[k]].children, base + k);
    if plan.up[k] == top {
      if top in plan.dying {
        DyingAfterTop(a.nodes, plan, tops, top, IndexOf(plan.dying, top));
      }
    } else {
      RenamedDying(a.nodes, plan, tops, top, plan.up[k] - base);
    }
  }

  /** A node that was there stays as it was, but for its death and for what it
      names; `top` lists its children's copies. */
  ghost predicate StaysAs(node: Node, after: Node, dying: seq<nat>, base: nat, i: nat, top: nat) {
    after == node.(controllerFor := RenamedOption(dying, base, node.controllerFor),
                   dead := node.dead || i in dying,
                   children := if i == top then RenamedAll(dying, base, node.children) else node.children)
  }

  ghost predicate AllIsomorphic(nodes: seq<Node>, after: seq<Node>, dying: seq<nat>) {
    && |after| == |nodes| + |dying|
    && forall k: nat :: k < |dying| ==>
         dying[k] < |nodes| && Isomorphic(nodes[dying[k]], after[|nodes| + k], dying, |nodes|, k)
  }

  ghost predicate AllStay(nodes: seq<Node>, after: seq<Node>, dying: seq<nat>, top: nat) {
    |nodes| <= |after| && forall i: nat :: i < |nodes| ==> StaysAs(nodes[i], after[i], dying, |nodes|, i, top)
  }

  ghost predicate ReplacedForm(a: Arena, r: Arena, dying: seq<nat>, top: nat) {
    var base := |a.nodes|;
    && AllIsomorphic(a.nodes, r.nodes, dying)
    && AllStay(a.nodes, r.nodes, dying, top)
    && r.names == RenamedNames(a.names, dying, base)
    && r.focused == RenamedOption(dying, base, a.focused)
    && r.selected == RenamedOption(dying, base, a.selected)
  }

  lemma PlanGivesCopies(a: Arena, plan: Plan, tops: seq<nat>, top: nat)
    requires Tree(a) && Replacing(a.nodes, plan, tops, top) && PlanFor(plan, |a.nodes|)
    ensures AllIsomorphic(a.nodes, WithChildren(Copied(a, plan), top, tops).nodes, plan.dying)
  {
    var copied := CopiedNodes(a.nodes, plan);
    forall k: nat | k < |plan.dying|
      ensures Isomorphic(a.nodes[plan.dying[k]], copied[|a.nodes| + k], plan.dying, |a.nodes|, k)
    {
      CopyIsomorphic(a, plan, tops, top, k);
      assert copied[|a.nodes| + k] == CopiedNode(a.nodes, plan, |a.nodes| + k);
    }
  }

  lemma PlanGivesKept(a: Arena, plan: Plan, tops: seq<nat>, top: nat)
    requires Tree(a) && Replacing(a.nodes, plan, tops, top) && PlanFor(plan, |a.nodes|)
    ensures AllStay(a.nodes, WithChildren(Copied(a, plan), top, tops).nodes, plan.dying, top)
  {
    var copied := CopiedNodes(a.nodes, plan);
    var after := copied[top := copied[top].(children := tops)];
    KidsRenamed(a.nodes, plan, tops, top, tops, a.nodes[top].children, top);
    forall i: nat | i < |a.nodes| ensures StaysAs(a.nodes[i], after[i], plan.dying, |a.nodes|, i, top) {
      assert copied[i] == CopiedNode(a.nodes, plan, i);
    }
  }

  lemma PlanGivesForm(a: Arena, plan: Plan, tops: seq<nat>, top: nat)
    requires Tree(a) && Replacing(a.nodes, plan, tops, top) && PlanFor(plan, |a.nodes|)
    ensures ReplacedForm(a, WithChildren(Copied(a, plan), top, tops), plan.dying, top)
  {
    PlanGivesCopies(a, plan, tops, top);
    PlanGivesKept(a, plan, tops, top);
  }

  lemma PlanKillsBelow(nodes: seq<Node>, plan: Plan, tops: seq<nat>, top: nat)
    requires Replacing(nodes, plan, tops, top)
    ensures Distinct(plan.dying)
    ensures forall i: nat :: i < |nodes| ==> (i in plan.dying <==> Below(nodes, top, i))
  {
    forall k, m | 0 <= k < m < |plan.dying| ensures plan.dying[k] != plan.dying[m] {
      if plan.dying[k] == plan.dying[m] { DyingOnce(nodes, plan, tops, top, k, m); }
    }
    forall i: nat | i < |nodes| ensures i in plan.dying <==> Below(nodes, top, i) {
      DyingAreBelow(nodes, plan, tops, top, i);
    }
  }

  /** The closed form of `replace-items`: the nodes below `top`, and no others,
      die, each once; the copy of the `k`-th of them, depth first, stands at the
      `k`-th fresh index and is isomorphic to it; every name, focus, selection
      and controller that named an original names its copy; `top` lists its
      children's copies; and nothing else changes. */
  lemma ItemsReplacedForm(a: Arena, top: nat)
    requires Tree(a) && top < |a.nodes|
    ensures Distinct(Dying(a, top))
    ensures forall i: nat :: i < |a.nodes| ==> (i in Dying(a, top) <==> Below(a.nodes, top, i))
    ensures ReplacedForm(a, ItemsReplaced(a, top), Dying(a, top), top)
  {
    var lists, base := ChildLists(a.nodes), |a.nodes|;
    ListsDownward(a.nodes);
    var plan, tops := PlanAllSound(lists, lists[top], top, top, base);
    PlanBounded(a.nodes, plan, tops, top);
    PlanKillsBelow(a.nodes, plan, tops, top);
    PlanGivesForm(a, plan, tops, top);
  }

  // ---- The result is a tree ----

  lemma RenamedWithin(dying: seq<nat>, base: nat, x: Option<nat>)
    requires Within(x, base)
    ensures Within(RenamedOption(dying, base, x), base + |dying|)
  {
  }

  /** The arena of a replacement, node by node. */
  ghost predicate Result(nodes: seq<Node>, plan: Plan, tops: seq<nat>, top: nat, after: seq<Node>) {
    && PlanFor(plan, |nodes|) && |after| == |nodes| + |plan.dying|
    && forall i :: 0 <= i < |after| ==>
         after[i] == CopiedNode(nodes, plan, i).(
                       children := if i == top then tops else CopiedNode(nodes, plan, i).children)
  }

  lemma KeptParentOk(nodes: seq<Node>, plan: Plan, tops: seq<nat>, top: nat, after: seq<Node>, i: nat)
    requires Replacing(nodes, plan, tops, top) && Result(nodes, plan, tops, top, after) && i < |nodes|
    ensures ParentOk(after, i)
  {
    assert NodeOk(nodes, i);
    if i == 0 {
      if 0 in plan.dying { DyingAfterTop(nodes, plan, tops, top, IndexOf(plan.dying, 0)); }
    } else if i in nodes[top].children {
      var j :| 0 <= j < |nodes[top].children| && nodes[top].children[j] == i;
      assert plan.dying[tops[j] - |nodes|] == i;
    }
  }

  lemma KeptChildrenOk(nodes: seq<Node>, plan: Plan, tops: seq<nat>, top: nat, after: seq<Node>, i: nat)
    requires Replacing(nodes, plan, tops, top) && Result(nodes, plan, tops, top, after) && i < |nodes|
    ensures ChildrenOk(after, i)
  {
    assert NodeOk(nodes, i);
    if i == top {
      forall k | 0 <= k < |tops| ensures tops[k] < |after| && after[tops[k]].parent == Some(i) {
        assert plan.up[tops[k] - |nodes|] == top;
      }
    } else {
      var children := nodes[i].children;
      forall k | 0 <= k < |children| ensures children[k] < |after| && after[children[k]].parent == Some(i) {
        assert nodes[children[k]].parent == Some(i);
      }
    }
  }

  lemma CopyParentOk(nodes: seq<Node>, plan: Plan, tops: seq<nat>, top: nat, after: seq<Node>, k: nat)
    requires Replacing(nodes, plan, tops, top) && Result(nodes, plan, tops, top, after) && k < |plan.dying|
    ensures ParentOk(after, |nodes| + k)
  {
    DyingParent(nodes, plan, tops, top, k);
  }

  lemma CopyChildrenOk(nodes: seq<Node>, plan: Plan, tops: seq<nat>, top: nat, after: seq<Node>, k: nat)
    requires Replacing(nodes, plan, tops, top) && Result(nodes, plan, tops, top, after) && k < |plan.dying|
    ensures ChildrenOk(after, |nodes| + k)
  {
    assert CopySound(ChildLists(nodes), plan, tops, top, |nodes|, k);
    var kids := plan.kids[k];
    assert after[|nodes| + k].children == kids;
    forall j | 0 <= j < |kids| ensures kids[j] < |after| && after[kids[j]].parent == Some(|nodes| + k) {
      assert plan.up[kids[j] - |nodes|] == |nodes| + k;
    }
  }

  lemma KeptNodeOk(nodes: seq<Node>, plan: Plan, tops: seq<nat>, top: nat, after: seq<Node>, i: nat)
    requires Replacing(nodes, plan, tops, top) && Result(nodes, plan, tops, top, after) && i < |nodes|
    ensures NodeOk(after, i)
  {
    KeptParentOk(nodes, plan, tops, top, after, i);
    KeptChildrenOk(nodes, plan, tops, top, after, i);
    assert NodeOk(nodes, i);
    RenamedWithin(plan.dying, |nodes|, nodes[i].controllerFor);
  }

  lemma CopyNodeOk(nodes: seq<Node>, plan: Plan, tops: seq<nat>, top: nat, after: seq<Node>, i: nat)
    requires Replacing(nodes, plan, tops, top) && Result(nodes, plan, tops, top, after) && |nodes| <= i < |after|
    ensures NodeOk(after, i)
  {
    var k := i - |nodes|;
    CopyParentOk(nodes, plan, tops, top, after, k);
    CopyChildrenOk(nodes, plan, tops, top, after, k);
    assert NodeOk(nodes, plan.dying[k]);
    RenamedWithin(plan.dying, |nodes|, nodes[plan.dying[k]].controllerFor);
  }

  lemma ResultNodesOk(nodes: seq<Node>, plan: Plan, tops: seq<nat>, top: nat, after: seq<Node>)
    requires Replacing(nodes, plan, tops, top) && Result(nodes, plan, tops, top, after)
    ensures NodesOk(after)
  {
    forall i | 0 <= i < |after| ensures NodeOk(after, i) {
      if i < |nodes| {
        KeptNodeOk(nodes, plan, tops, top, after, i);
      } else {
        CopyNodeOk(nodes, plan, tops, top, after, i);
      }
    }
  }

  lemma PlanKeepsNames(names: map<string, nat>, dying: seq<nat>, base: nat)
    requires NamesOk(names, base)
    ensures NamesOk(RenamedNames(names, dying, base), base + |dying|)
  {
    var r := RenamedNames(names, dying, base);
    forall name | name in names ensures r[name] < base + |dying| {
      RenamedWithin(dying, base, Some(names[name]));
    }
    forall m, n | m in r && n in r && r[m] == r[n] ensures m == n {
      RenamedInjective(dying, base, names[m], names[n]);
    }
  }

  lemma PlanKeepsTree(a: Arena, plan: Plan, tops: seq<nat>, top: nat)
    requires Tree(a) && Replacing(a.nodes, plan, tops, top) && PlanFor(plan, |a.nodes|)
    ensures Tree(WithChildren(Copied(a, plan), top, tops))
  {
    var r, base := WithChildren(Copied(a, plan), top, tops), |a.nodes|;
    ResultNodesOk(a.nodes, plan, tops, top, r.nodes);
    PlanKeepsNames(a.names, plan.dying, base);
    RenamedWithin(plan.dying, base, a.focused);
    RenamedWithin(plan.dying, base, a.selected);
  }

  lemma PlanKeepsIds(a: Arena, plan: Plan, tops: seq<nat>, top: nat)
    requires Tree(a) && top < |a.nodes| && PlanFor(plan, |a.nodes|) && DistinctIds(a.nodes)
    ensures DistinctIds(WithChildren(Copied(a, plan), top, tops).nodes)
  {
    var copied := Copied(a, plan).nodes;
    var nodes, base := WithChildren(Copied(a, plan), top, tops).nodes, |a.nodes|;
    forall i, j | 0 <= i < j < |nodes| && !nodes[i].dead && !nodes[j].dead
      ensures nodes[i].runtimeId != nodes[j].runtimeId
    {
      assert copied[i] == CopiedNode(a.nodes, plan, i) && copied[j] == CopiedNode(a.nodes, plan, j);
      if i < base { assert NodeOk(a.nodes, i); }
    }
  }

  /** Replacing items keeps the arena a tree, and live nodes' runtime ids apart. */
  lemma ItemsReplacedTree(a: Arena, top: nat)
    requires Tree(a) && top < |a.nodes|
    ensures Tree(ItemsReplaced(a, top))
    ensures DistinctIds(a.nodes) ==> DistinctIds(ItemsReplaced(a, top).nodes)
  {
    var lists, base := ChildLists(a.nodes), |a.nodes|;
    ListsDownward(a.nodes);
    var plan, tops := PlanAllSound(lists, lists[top], top, top, base);
    PlanBounded(a.nodes, plan, tops, top);
    PlanKeepsTree(a, plan, tops, top);
    if DistinctIds(a.nodes) { PlanKeepsIds(a, plan, tops, top); }
  }
}
