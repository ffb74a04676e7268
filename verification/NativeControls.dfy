/** Taking the real controls out of a fixture (crates/mockapp/src/fixture.rs)
    loses nothing and keeps the order: what stays and what is taken are, in
    order, the nodes outside and inside real controls. */
module NativeControls {
  import opened Basics
  import opened Fixtures
  import opened FixtureReading

  /** A node with its own fields and no children, and whether it is, or is in, a
      real control. */
  datatype Marked = Marked(node: FixtureNode, native: bool)

  function Alone(node: FixtureNode): FixtureNode {
    node.(children := [])
  }

  /** The nodes of a fixture, depth first. */
  ghost function Marks(node: FixtureNode, native: bool): seq<Marked>
    decreases node
  {
    var inside := native || node.native.Some?;
    [Marked(Alone(node), inside)] + MarksAll(node.children, inside)
  }

  ghost function MarksAll(list: seq<FixtureNode>, native: bool): seq<Marked>
    decreases list
  {
    if list == [] then [] else MarksAll(list[..|list| - 1], native) + Marks(list[|list| - 1], native)
  }

  ghost function Flat(node: FixtureNode): seq<FixtureNode>
    decreases node
  {
    [Alone(node)] + FlatAll(node.children)
  }

  ghost function FlatAll(list: seq<FixtureNode>): seq<FixtureNode>
    decreases list
  {
    if list == [] then [] else FlatAll(list[..|list| - 1]) + Flat(list[|list| - 1])
  }

  /** The marked nodes on one side, in order. */
  ghost function Side(marks: seq<Marked>, native: bool): seq<FixtureNode> {
    if marks == [] then []
    else
      var n := |marks| - 1;
      Side(marks[..n], native) + if marks[n].native == native then [marks[n].node] else []
  }

  lemma {:induction false} SideSum(a: seq<Marked>, b: seq<Marked>, native: bool)
    ensures Side(a + b, native) == Side(a, native) + Side(b, native)
    decreases |b|
  {
    if b == [] {
      assert a + b == a;
    } else {
      var n := |b| - 1;
      assert (a + b)[..|a| + n] == a + b[..n];
      SideSum(a, b[..n], native);
    }
  }

  lemma SideOne(mark: Marked, native: bool)
    ensures Side([mark], native) == if mark.native == native then [mark.node] else []
  {
    assert [mark][..0] == [];
  }

  lemma FlatSnoc(a: seq<FixtureNode>, node: FixtureNode)
    ensures FlatAll(a + [node]) == FlatAll(a) + Flat(node)
  {
    assert (a + [node])[..|a|] == a;
  }

  lemma {:induction false} FlatSum(a: seq<FixtureNode>, b: seq<FixtureNode>)
    ensures FlatAll(a + b) == FlatAll(a) + FlatAll(b)
    decreases |b|
  {
    if b == [] {
      assert a + b == a;
    } else {
      var c, node := b[..|b| - 1], b[|b| - 1];
      assert b == c + [node] && a + b == (a + c) + [node];
      FlatSum(a, c);
      FlatSnoc(a + c, node);
      FlatSnoc(c, node);
      Associate(FlatAll(a), FlatAll(c), Flat(node));
    }
  }

  lemma FlatOne(node: FixtureNode)
    ensures FlatAll([node]) == Flat(node)
  {
    assert [node][..0] == [];
  }

  lemma SideNode(node: FixtureNode, native: bool, side: bool)
    ensures var inside := native || node.native.Some?;
            Side(Marks(node, native), side) ==
            (if inside == side then [Alone(node)] else []) + Side(MarksAll(node.children, inside), side)
  {
    var inside := native || node.native.Some?;
    SideSum([Marked(Alone(node), inside)], MarksAll(node.children, inside), side);
    SideOne(Marked(Alone(node), inside), side);
  }

  /** Everything in a real control is on its side. */
  lemma {:induction false} InsideAll(list: seq<FixtureNode>)
    ensures Side(MarksAll(list, true), true) == FlatAll(list) && Side(MarksAll(list, true), false) == []
    decreases list
  {
    if list != [] {
      var n := |list| - 1;
      InsideAll(list[..n]);
      InsideNode(list[n]);
      SideSum(MarksAll(list[..n], true), Marks(list[n], true), true);
      SideSum(MarksAll(list[..n], true), Marks(list[n], true), false);
    }
  }

  lemma {:induction false} InsideNode(node: FixtureNode)
    ensures Side(Marks(node, true), true) == Flat(node) && Side(Marks(node, true), false) == []
    decreases node
  {
    InsideAll(node.children);
    SideNode(node, true, true);
    SideNode(node, true, false);
  }

  /** A real control is taken whole. */
  lemma NativeNode(node: FixtureNode)
    requires node.native.Some?
    ensures Side(Marks(node, false), true) == Flat(node) && Side(Marks(node, false), false) == []
  {
    InsideAll(node.children);
    SideNode(node, false, true);
    SideNode(node, false, false);
  }

  lemma OtherNode(node: FixtureNode)
    requires node.native.None?
    requires Side(MarksAll(node.children, false), false) == FlatAll(KeptAll(node.children))
    requires Side(MarksAll(node.children, false), true) == FlatAll(Taken(node.children))
    ensures Side(Marks(node, false), false) == Flat(Kept(node))
    ensures Side(Marks(node, false), true) == FlatAll(Taken(node.children))
  {
    SideNode(node, false, true);
    SideNode(node, false, false);
    assert Alone(Kept(node)) == Alone(node);
  }

  /** What stays and what is taken are the nodes outside and inside real controls,
      each with its fields, in order. */
  lemma {:induction false} NativeInOrder(list: seq<FixtureNode>)
    ensures FlatAll(KeptAll(list)) == Side(MarksAll(list, false), false)
    ensures FlatAll(Taken(list)) == Side(MarksAll(list, false), true)
    decreases list
  {
    if list != [] {
      var n := |list| - 1;
      var before, last := list[..n], list[n];
      NativeInOrder(before);
      SideSum(MarksAll(before, false), Marks(last, false), false);
      SideSum(MarksAll(before, false), Marks(last, false), true);
      if last.native.Some? {
        NativeNode(last);
        FlatSum(Taken(before), [last]);
        FlatOne(last);
        assert KeptAll(list) == KeptAll(before);
        assert Side(MarksAll(before, false), false) + [] == Side(MarksAll(before, false), false);
      } else {
        NativeInOrder(last.children);
        OtherNode(last);
        FlatSum(KeptAll(before), [Kept(last)]);
        FlatOne(Kept(last));
        FlatSum(Taken(before), Taken(last.children));
      }
    }
  }

  ghost function Nodes(marks: seq<Marked>): (nodes: seq<FixtureNode>)
    ensures |nodes| == |marks|
  {
    seq(|marks|, k requires 0 <= k < |marks| => marks[k].node)
  }

  /** And the marked nodes are all the nodes there are. */
  lemma {:induction false} MarksAreNodes(list: seq<FixtureNode>, native: bool)
    ensures Nodes(MarksAll(list, native)) == FlatAll(list)
    decreases list
  {
    if list != [] {
      var n := |list| - 1;
      MarksAreNodes(list[..n], native);
      MarksAreNode(list[n], native);
    }
  }

  lemma {:induction false} MarksAreNode(node: FixtureNode, native: bool)
    ensures Nodes(Marks(node, native)) == Flat(node)
    decreases node
  {
    MarksAreNodes(node.children, native || node.native.Some?);
  }
}
