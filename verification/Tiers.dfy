/** The crate-tier check (xtask/src/tiers.rs): what every tier's crates may
    reach, and which crates the determinism rule covers. */
module Tiers {
  import opened Basics
  import opened Orders
  import opened Graphs

  datatype Tier = PlatformNeutral | Logic | Windows | Tool

  type TierList = seq<(Tier, seq<string>)>

  const WORKSPACE_HACK: string := "workspace-hack"

  /** The crates through which the Windows API is reached. */
  predicate IsWindowsBinding(name: string) {
    name == "windows" || name == "windows-core"
  }

  predicate IsRawWindowsBinding(name: string) {
    !IsWindowsBinding(name) && (name == "winapi" || "windows-" <= name || "windows_" <= name)
  }

  // ---- Covered crates ----

  /** A member other than the workspace-hack crate. */
  ghost predicate Coverable(g: Graph, id: string) {
    id in g.packages && g.packages[id].member && g.packages[id].name != "workspace-hack"
  }

  /** What covering `id` covers with it. */
  ghost predicate LeadsTo(g: Graph, id: string, next: string) {
    (next != id && Reaches(g, id, next)) || (id in g.devEdges && next in g.devEdges[id])
  }

  /** `ids` hold the reducers and everything they lead to, as far as covered. */
  ghost predicate Closed(g: Graph, reducers: seq<string>, ids: set<string>) {
    && (forall id :: Coverable(g, id) && g.packages[id].name in reducers ==> id in ids)
    && (forall id, next :: id in ids && Coverable(g, next) && LeadsTo(g, id, next) ==> next in ids)
  }

  /** `ids` are the least such set, all of them members and none of them the
      workspace-hack crate. */
  ghost predicate LeastClosed(g: Graph, reducers: seq<string>, ids: set<string>) {
    && Closed(g, reducers, ids)
    && (forall id :: id in ids ==> Coverable(g, id))
    && (forall other :: Closed(g, reducers, other) ==> ids <= other)
  }

  function NamesOf(g: Graph, ids: set<string>): set<string> {
    set id | id in ids :: Name(g, id)
  }

  /** Every package in `queue` or already covered is one that has to be. */
  ghost predicate Needed(g: Graph, reducers: seq<string>, covered: set<string>, queue: seq<string>) {
    && (forall id :: id in covered ==> Coverable(g, id))
    && (forall k :: 0 <= k < |queue| ==> IsMember(g, queue[k]))
    && (forall other :: Closed(g, reducers, other) ==>
          && covered <= other
          && forall k :: 0 <= k < |queue| && Coverable(g, queue[k]) ==> queue[k] in other)
  }

  /** Every package that has to be covered because of a covered one, or for
      being a reducer, is covered or waits in `queue`. */
  ghost predicate Accounted(g: Graph, reducers: seq<string>, covered: set<string>, queue: seq<string>) {
    && (forall id :: Coverable(g, id) && g.packages[id].name in reducers ==> id in covered || id in queue)
    && (forall id, next :: id in covered && Coverable(g, next) && LeadsTo(g, id, next) ==>
          next in covered || next in queue)
  }

  /** Appends to `queue` the members of `list` not yet covered. */
  method Enqueue(g: Graph, list: seq<string>, covered: set<string>, queue: seq<string>) returns (queue': seq<string>)
    ensures forall id :: id in queue' <==> id in queue || (id in list && IsMember(g, id) && id !in covered)
  {
    queue' := queue;
    for k := 0 to |list|
      invariant forall id :: id in queue' <==> id in queue || (id in list[..k] && IsMember(g, id) && id !in covered)
    {
      assert list[..k + 1] == list[..k] + [list[k]];
      if IsMember(g, list[k]) && list[k] !in covered {
        queue' := queue' + [list[k]];
      }
    }
    assert list[..|list|] == list;
  }

  lemma SkipKeeps(g: Graph, reducers: seq<string>, covered: set<string>, queue: seq<string>)
    requires queue != [] && Needed(g, reducers, covered, queue) && Accounted(g, reducers, covered, queue)
    requires Name(g, queue[0]) == WORKSPACE_HACK || queue[0] in covered
    ensures Needed(g, reducers, covered, queue[1..]) && Accounted(g, reducers, covered, queue[1..])
  {
    assert queue == [queue[0]] + queue[1..];
  }

  lemma CoverNeeded(g: Graph, reducers: seq<string>, covered: set<string>, queue: seq<string>, queue': seq<string>)
    requires queue != [] && Needed(g, reducers, covered, queue)
    requires Name(g, queue[0]) != WORKSPACE_HACK
    requires forall id :: id in queue' ==> id in queue[1..] || (LeadsTo(g, queue[0], id) && IsMember(g, id))
    ensures Needed(g, reducers, covered + {queue[0]}, queue')
  {
    assert queue == [queue[0]] + queue[1..];
    forall k | 0 <= k < |queue'| ensures IsMember(g, queue'[k]) {
      assert queue'[k] in queue';
      if queue'[k] in queue[1..] { assert queue'[k] in queue; }
    }
    forall other, k | Closed(g, reducers, other) && 0 <= k < |queue'| && Coverable(g, queue'[k])
      ensures queue'[k] in other
    {
      assert queue'[k] in queue';
      assert queue[0] in other;
      if queue'[k] in queue[1..] { assert queue'[k] in queue; }
    }
  }

  lemma CoverAccounted(g: Graph, reducers: seq<string>, covered: set<string>, queue: seq<string>, queue': seq<string>)
    requires queue != [] && Accounted(g, reducers, covered, queue)
    requires forall id :: id in queue[1..] ==> id in queue'
    requires forall id :: LeadsTo(g, queue[0], id) && IsMember(g, id) ==> id in covered || id in queue'
    ensures Accounted(g, reducers, covered + {queue[0]}, queue')
  {
    assert queue == [queue[0]] + queue[1..];
  }

  /** The crates the determinism rule covers, whatever order the packages are
      taken in. */
  method Covered(g: Graph, reducers: seq<string>) returns (names: set<string>)
    ensures exists ids :: LeastClosed(g, reducers, ids) && names == set id | id in ids :: g.packages[id].name
  {
    var first := set id | id in g.packages && IsMember(g, id) && Name(g, id) in reducers;
    var queue := InSomeOrder(first);
    var covered: set<string> := {};
    assert Needed(g, reducers, covered, queue) by {
      forall k | 0 <= k < |queue| ensures queue[k] in first { assert queue[k] in queue; }
    }
    assert Accounted(g, reducers, covered, queue);
    while queue != []
      invariant Needed(g, reducers, covered, queue) && Accounted(g, reducers, covered, queue)
      invariant covered <= g.packages.Keys
      decreases g.packages.Keys - covered, |queue|
    {
      var id, rest := queue[0], queue[1..];
      if Name(g, id) == WORKSPACE_HACK || id in covered {
        SkipKeeps(g, reducers, covered, queue);
        queue := rest;
        continue;
      }
      var reached := Reached(g, id);
      var keys := InSomeOrder(reached.Keys);
      var next := Enqueue(g, keys + DevEdges(g, id), covered, rest);
      CoverNeeded(g, reducers, covered, queue, next);
      CoverAccounted(g, reducers, covered, queue, next);
      queue := next;
      covered := covered + {id};
    }
    assert LeastClosed(g, reducers, covered);
    names := NamesOf(g, covered);
    assert names == set id | id in covered :: g.packages[id].name;
  }

  // ---- Classes ----

  predicate Lists(entry: (Tier, seq<string>), name: string) {
    name in entry.1
  }

  /** In how many tiers' lists a crate is. */
  function TierCount(tiers: TierList, name: string): nat {
    if tiers == [] then 0
    else TierCount(tiers[..|tiers| - 1], name) + if Lists(tiers[|tiers| - 1], name) then 1 else 0
  }

  /** The tier a crate is classed in: that of the first list it is in. */
  function TierOf(tiers: TierList, name: string): (tier: Option<Tier>)
    ensures tier.None? <==> forall k :: 0 <= k < |tiers| ==> !Lists(tiers[k], name)
    ensures tier.Some? ==>
              exists k :: 0 <= k < |tiers| && Lists(tiers[k], name) && tiers[k].0 == tier.value
                          && forall j :: 0 <= j < k ==> !Lists(tiers[j], name)
  {
    if tiers == [] then None
    else if Lists(tiers[0], name) then Some(tiers[0].0)
    else
      var rest := tiers[1..];
      var tier := TierOf(rest, name);
      assert forall k :: 0 <= k < |rest| ==> rest[k] == tiers[k + 1];
      assert tier.Some? ==>
          exists k :: 0 <= k < |tiers| && Lists(tiers[k], name) && tiers[k].0 == tier.value
                      && forall j :: 0 <= j < k ==> !Lists(tiers[j], name) by {
        if tier.Some? {
          var k :| 0 <= k < |rest| && Lists(rest[k], name) && rest[k].0 == tier.value
                   && forall j :: 0 <= j < k ==> !Lists(rest[j], name);
          assert Lists(tiers[k + 1], name);
          assert forall j :: 0 <= j < k + 1 ==> !Lists(tiers[j], name) by {
            forall j | 0 <= j < k + 1 ensures !Lists(tiers[j], name) {
              if j > 0 { assert !Lists(rest[j - 1], name); }
            }
          }
        }
      }
      tier
  }

  /** Each member's id by its name; of members with one name, the last by id. */
  ghost predicate MembersOf(g: Graph, members: map<string, string>) {
    && (forall id :: IsMember(g, id) ==> Name(g, id) in members && StringLe(id, members[Name(g, id)]))
    && (forall name :: name in members ==> IsMember(g, members[name]) && Name(g, members[name]) == name)
  }

  ghost predicate MembersAmong(g: Graph, ids: seq<string>, members: map<string, string>) {
    && (forall j :: 0 <= j < |ids| && IsMember(g, ids[j]) ==>
          Name(g, ids[j]) in members && StringLe(ids[j], members[Name(g, ids[j])]))
    && (forall name :: name in members ==> IsMember(g, members[name]) && Name(g, members[name]) == name)
  }

  lemma MembersStep(g: Graph, order: seq<string>, k: nat, members: map<string, string>)
    requires Sorted(StringLe, order) && k < |order| && MembersAmong(g, order[..k], members)
    ensures IsMember(g, order[k]) ==> MembersAmong(g, order[..k + 1], members[Name(g, order[k]) := order[k]])
    ensures !IsMember(g, order[k]) ==> MembersAmong(g, order[..k + 1], members)
  {
    var before, upTo := order[..k], order[..k + 1];
    assert forall j :: 0 <= j < k ==> before[j] == upTo[j] == order[j];
    assert upTo[k] == order[k];
    StringLeTotal(order[k], order[k]);
  }

  method Members(g: Graph) returns (members: map<string, string>)
    ensures MembersOf(g, members)
  {
    var order := SortedKeys(g.packages.Keys);
    members := map[];
    for k := 0 to |order|
      invariant MembersAmong(g, order[..k], members)
    {
      MembersStep(g, order, k, members);
      if IsMember(g, order[k]) {
        members := members[Name(g, order[k]) := order[k]];
      }
    }
    assert order[..|order|] == order;
    forall id | IsMember(g, id) ensures Name(g, id) in members && StringLe(id, members[Name(g, id)]) {
      assert id in order;
    }
  }
}
