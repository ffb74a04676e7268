/** The dependency graph of the crate-tier check (xtask/src/tiers.rs) and its
    breadth-first search. */
module Graphs {

  datatype Package = Package(name: string, member: bool)

  datatype Graph = Graph(
    packages: map<string, Package>,
    edges: map<string, seq<string>>,
    devEdges: map<string, seq<string>>)

  function Edges(g: Graph, id: string): seq<string> {
    if id in g.edges then g.edges[id] else []
  }

  function DevEdges(g: Graph, id: string): seq<string> {
    if id in g.devEdges then g.devEdges[id] else []
  }

  /** A package's name, or its id when the graph does not hold it. */
  function Name(g: Graph, id: string): string {
    if id in g.packages then g.packages[id].name else id
  }

  predicate IsMember(g: Graph, id: string) {
    id in g.packages && g.packages[id].member
  }

  // ---- Paths ----

  /** `id` has a normal or build edge to `on`. */
  ghost predicate DependsOn(g: Graph, id: string, on: string) {
    id in g.edges && on in g.edges[id]
  }

  /** `path` goes from `from` to `to` along such edges. */
  ghost predicate Path(g: Graph, path: seq<string>, from: string, to: string) {
    && |path| > 0 && path[0] == from && path[|path| - 1] == to
    && forall i :: 0 < i < |path| ==> DependsOn(g, path[i - 1], path[i])
  }

  ghost predicate Reaches(g: Graph, from: string, to: string) {
    exists path :: Path(g, path, from, to)
  }

  ghost predicate Shortest(g: Graph, path: seq<string>, from: string, to: string) {
    && Path(g, path, from, to)
    && forall other :: Path(g, other, from, to) ==> |path| <= |other|
  }

  lemma PathExtended(g: Graph, path: seq<string>, from: string, at: string, next: string)
    requires Path(g, path, from, at) && next in Edges(g, at)
    ensures Path(g, path + [next], from, next)
  {
    var longer := path + [next];
    forall i | 0 < i < |longer| ensures longer[i] in Edges(g, longer[i - 1]) {
    }
  }

  // ---- The search ----

  /** What is found so far: `from` and the keys of `paths`. */
  ghost predicate Found(paths: map<string, seq<string>>, from: string, v: string) {
    v == from || v in paths
  }

  ghost function Distance(paths: map<string, seq<string>>, from: string, v: string): nat
    requires Found(paths, from, v)
  {
    if v == from then 1 else |paths[v]|
  }

  /** Everything one step from `v` is found, at most one step further. */
  ghost predicate Settled(g: Graph, paths: map<string, seq<string>>, from: string, v: string) {
    && Found(paths, from, v)
    && forall k :: 0 <= k < |Edges(g, v)| ==>
         && Found(paths, from, Edges(g, v)[k])
         && Distance(paths, from, Edges(g, v)[k]) <= Distance(paths, from, v) + 1
  }

  /** Each stored path is a path to its key. */
  ghost predicate PathsOk(g: Graph, paths: map<string, seq<string>>, from: string) {
    forall v :: v in paths ==> v != from && Path(g, paths[v], from, v)
  }

  /** `path` is the one stored for the package it ends at. */
  ghost predicate Stored(paths: map<string, seq<string>>, from: string, path: seq<string>) {
    path == [from] || (|path| > 0 && path[|path| - 1] in paths && paths[path[|path| - 1]] == path)
  }

  /** The queue holds stored paths, shortest first, at most a step apart, and
      nothing found is further than a step beyond the first. */
  ghost predicate QueueOk(paths: map<string, seq<string>>, from: string, queue: seq<seq<string>>) {
    && (forall i :: 0 <= i < |queue| ==> Stored(paths, from, queue[i]))
    && (forall i, j :: 0 <= i < j < |queue| ==> |queue[i]| <= |queue[j]|)
    && (queue != [] ==>
          && (forall i :: 0 <= i < |queue| ==> |queue[i]| <= |queue[0]| + 1)
          && forall v :: v in paths ==> |paths[v]| <= |queue[0]| + 1)
  }

  ghost predicate Queued(queue: seq<seq<string>>, v: string) {
    exists i :: 0 <= i < |queue| && |queue[i]| > 0 && queue[i][|queue[i]| - 1] == v
  }

  /** Everything found is done or waits in the queue. */
  ghost predicate Progress(g: Graph, paths: map<string, seq<string>>, from: string,
                           queue: seq<seq<string>>, done: set<string>)
  {
    && (forall v :: v in done ==> Settled(g, paths, from, v))
    && (from in done || Queued(queue, from))
    && (forall v :: v in paths ==> v in done || Queued(queue, v))
  }

  /** The state of the search between two packages. */
  ghost predicate Searching(g: Graph, paths: map<string, seq<string>>, from: string,
                            queue: seq<seq<string>>, done: set<string>)
  {
    PathsOk(g, paths, from) && QueueOk(paths, from, queue) && Progress(g, paths, from, queue, done)
  }

  /** A package found while visiting the one at the end of `path`. */
  ghost predicate NewFrom(g: Graph, path: seq<string>, from: string, paths: map<string, seq<string>>,
                          added: seq<seq<string>>, v: string)
    requires |path| > 0 && v in paths
  {
    v != from && v in Edges(g, path[|path| - 1]) && paths[v] == path + [v] && Queued(added, v)
  }

  /** What visiting the first `count` dependencies of the package at the end of
      `path` adds. */
  ghost predicate Visited(g: Graph, path: seq<string>, from: string,
                          paths: map<string, seq<string>>, added: seq<seq<string>>,
                          paths': map<string, seq<string>>, count: nat)
    requires |path| > 0 && count <= |Edges(g, path[|path| - 1])|
  {
    var next := Edges(g, path[|path| - 1]);
    && (forall v :: v in paths ==> v in paths' && paths'[v] == paths[v])
    && (forall v :: v in paths' && v !in paths ==> NewFrom(g, path, from, paths', added, v))
    && (forall i :: 0 <= i < |added| ==> |added[i]| == |path| + 1 && Stored(paths', from, added[i]))
    && (forall k :: 0 <= k < count ==> Found(paths', from, next[k]))
    && (added != [] ==> exists v :: v in paths' && v !in paths)
  }

  lemma QueuedMore(queue: seq<seq<string>>, more: seq<seq<string>>, v: string)
    requires Queued(queue, v) || Queued(more, v)
    ensures Queued(queue + more, v)
  {
    var both := queue + more;
    if Queued(queue, v) {
      var i :| 0 <= i < |queue| && |queue[i]| > 0 && queue[i][|queue[i]| - 1] == v;
      assert both[i] == queue[i];
    } else {
      var i :| 0 <= i < |more| && |more[i]| > 0 && more[i][|more[i]| - 1] == v;
      assert both[|queue| + i] == more[i];
    }
  }

  lemma VisitedOneMore(g: Graph, path: seq<string>, from: string,
                       paths: map<string, seq<string>>, added: seq<seq<string>>,
                       paths': map<string, seq<string>>, k: nat)
    requires |path| > 0 && k < |Edges(g, path[|path| - 1])| && Visited(g, path, from, paths, added, paths', k)
    requires var next := Edges(g, path[|path| - 1])[k]; next != from && next !in paths'
    ensures var next := Edges(g, path[|path| - 1])[k];
            Visited(g, path, from, paths, added + [path + [next]], paths'[next := path + [next]], k + 1)
  {
    var next := Edges(g, path[|path| - 1])[k];
    var longer := path + [next];
    var more, paths'' := added + [longer], paths'[next := longer];
    assert longer[|longer| - 1] == next;
    forall v | v in paths'' && v !in paths ensures NewFrom(g, path, from, paths'', more, v) {
      if v == next {
        assert [longer][0] == longer;
        assert Queued([longer], v);
      } else {
        assert NewFrom(g, path, from, paths', added, v);
      }
      QueuedMore(added, [longer], v);
    }
    forall i | 0 <= i < |more| ensures |more[i]| == |path| + 1 && Stored(paths'', from, more[i]) {
      if i < |added| { assert Stored(paths', from, added[i]) && |added[i]| == |path| + 1; }
    }
    assert next in paths'' && next !in paths;
  }

  method Visit(g: Graph, path: seq<string>, from: string, paths: map<string, seq<string>>, queue: seq<seq<string>>)
    returns (paths': map<string, seq<string>>, queue': seq<seq<string>>)
    requires |path| > 0
    ensures exists added :: VisitDone(g, path, from, paths, added, paths') && queue' == queue + added
  {
    var next := Edges(g, path[|path| - 1]);
    ghost var added: seq<seq<string>> := [];
    paths', queue' := paths, queue;
    for k := 0 to |next|
      invariant Visited(g, path, from, paths, added, paths', k)
      invariant queue' == queue + added
    {
      if next[k] != from && next[k] !in paths' {
        VisitedOneMore(g, path, from, paths, added, paths', k);
        var longer := path + [next[k]];
        paths' := paths'[next[k] := longer];
        queue' := queue' + [longer];
        added := added + [longer];
      }
    }
    assert VisitDone(g, path, from, paths, added, paths');
  }

  // ---- One package visited ----

  ghost predicate VisitDone(g: Graph, path: seq<string>, from: string, paths: map<string, seq<string>>,
                            added: seq<seq<string>>, paths': map<string, seq<string>>)
  {
    |path| > 0 && Visited(g, path, from, paths, added, paths', |Edges(g, path[|path| - 1])|)
  }

  lemma VisitKeepsPaths(g: Graph, path: seq<string>, from: string, paths: map<string, seq<string>>,
                        added: seq<seq<string>>, paths': map<string, seq<string>>)
    requires PathsOk(g, paths, from) && Stored(paths, from, path) && VisitDone(g, path, from, paths, added, paths')
    ensures PathsOk(g, paths', from)
  {
    var at := path[|path| - 1];
    assert Path(g, path, from, at);
    forall v | v in paths' ensures v != from && Path(g, paths'[v], from, v) {
      if v !in paths {
        assert NewFrom(g, path, from, paths', added, v);
        PathExtended(g, path, from, at, v);
      }
    }
  }

  /** No path found is longer than the ones just queued. */
  lemma VisitPathsShort(g: Graph, path: seq<string>, from: string, paths: map<string, seq<string>>,
                        rest: seq<seq<string>>, added: seq<seq<string>>, paths': map<string, seq<string>>)
    requires QueueOk(paths, from, [path] + rest) && VisitDone(g, path, from, paths, added, paths')
    ensures forall v :: v in paths' ==> |paths'[v]| <= |path| + 1
  {
    assert ([path] + rest)[0] == path;
    forall v | v in paths' ensures |paths'[v]| <= |path| + 1 {
      if v !in paths { assert NewFrom(g, path, from, paths', added, v); }
    }
  }

  lemma VisitQueueStored(g: Graph, path: seq<string>, from: string, paths: map<string, seq<string>>,
                         rest: seq<seq<string>>, added: seq<seq<string>>, paths': map<string, seq<string>>)
    requires QueueOk(paths, from, [path] + rest) && VisitDone(g, path, from, paths, added, paths')
    ensures forall i :: 0 <= i < |rest| ==> Stored(paths', from, rest[i]) && |path| <= |rest[i]| <= |path| + 1
    ensures forall i :: 0 <= i < |added| ==> Stored(paths', from, added[i]) && |added[i]| == |path| + 1
  {
    var queue := [path] + rest;
    assert queue[0] == path;
    forall i | 0 <= i < |rest| ensures Stored(paths', from, rest[i]) && |path| <= |rest[i]| <= |path| + 1 {
      assert queue[i + 1] == rest[i];
      assert Stored(paths, from, queue[i + 1]);
    }
  }

  lemma VisitKeepsQueue(g: Graph, path: seq<string>, from: string, paths: map<string, seq<string>>,
                        rest: seq<seq<string>>, added: seq<seq<string>>, paths': map<string, seq<string>>)
    requires QueueOk(paths, from, [path] + rest) && VisitDone(g, path, from, paths, added, paths')
    ensures QueueOk(paths', from, rest + added)
  {
    VisitPathsShort(g, path, from, paths, rest, added, paths');
    VisitQueueStored(g, path, from, paths, rest, added, paths');
    var queue, queue' := [path] + rest, rest + added;
    forall i, j | 0 <= i < j < |rest| ensures |rest[i]| <= |rest[j]| {
      assert queue[i + 1] == rest[i] && queue[j + 1] == rest[j];
    }
    QueueJoined(paths', from, rest, added, |path|);
  }

  lemma QueueJoined(paths: map<string, seq<string>>, from: string, rest: seq<seq<string>>, added: seq<seq<string>>, n: nat)
    requires forall v :: v in paths ==> |paths[v]| <= n + 1
    requires forall i :: 0 <= i < |rest| ==> Stored(paths, from, rest[i]) && n <= |rest[i]| <= n + 1
    requires forall i :: 0 <= i < |added| ==> Stored(paths, from, added[i]) && |added[i]| == n + 1
    requires forall i, j :: 0 <= i < j < |rest| ==> |rest[i]| <= |rest[j]|
    ensures QueueOk(paths, from, rest + added)
  {
    var queue := rest + added;
    forall i | 0 <= i < |queue| ensures Stored(paths, from, queue[i]) && n <= |queue[i]| <= n + 1 {
      if i >= |rest| { assert queue[i] == added[i - |rest|]; }
    }
  }

  lemma VisitSettles(g: Graph, path: seq<string>, from: string, paths: map<string, seq<string>>,
                     rest: seq<seq<string>>, added: seq<seq<string>>, paths': map<string, seq<string>>)
    requires PathsOk(g, paths, from) && QueueOk(paths, from, [path] + rest)
    requires VisitDone(g, path, from, paths, added, paths')
    ensures Settled(g, paths', from, path[|path| - 1])
  {
    var at := path[|path| - 1];
    var queue := [path] + rest;
    assert queue[0] == path && Stored(paths, from, path);
    assert Distance(paths', from, at) == |path|;
    VisitPathsShort(g, path, from, paths, rest, added, paths');
    forall k | 0 <= k < |Edges(g, at)| ensures Distance(paths', from, Edges(g, at)[k]) <= |path| + 1 {
      var w := Edges(g, at)[k];
      assert Found(paths', from, w);
      if w in paths' && w !in paths { assert NewFrom(g, path, from, paths', added, w); }
    }
  }

  lemma VisitProgress(g: Graph, path: seq<string>, from: string, paths: map<string, seq<string>>,
                      rest: seq<seq<string>>, added: seq<seq<string>>, paths': map<string, seq<string>>,
                      done: set<string>)
    requires Searching(g, paths, from, [path] + rest, done) && VisitDone(g, path, from, paths, added, paths')
    ensures Progress(g, paths', from, rest + added, done + {path[|path| - 1]})
  {
    var at := path[|path| - 1];
    VisitSettles(g, path, from, paths, rest, added, paths');
    forall v | v in done ensures Settled(g, paths', from, v) {
      StaysSettled(g, path, from, paths, added, paths', v);
    }
    if from !in done { StillQueued(path, rest, added, from); }
    forall v | v in paths' ensures v in done || v == at || Queued(rest + added, v) {
      if v !in paths {
        assert NewFrom(g, path, from, paths', added, v);
        QueuedMore(rest, added, v);
      } else if v !in done {
        StillQueued(path, rest, added, v);
      }
    }
  }

  lemma StaysSettled(g: Graph, path: seq<string>, from: string, paths: map<string, seq<string>>,
                     added: seq<seq<string>>, paths': map<string, seq<string>>, v: string)
    requires Settled(g, paths, from, v) && VisitDone(g, path, from, paths, added, paths')
    ensures Settled(g, paths', from, v)
  {
  }

  lemma StillQueued(path: seq<string>, rest: seq<seq<string>>, added: seq<seq<string>>, v: string)
    requires |path| > 0 && Queued([path] + rest, v)
    ensures v == path[|path| - 1] || Queued(rest + added, v)
  {
    var queue := [path] + rest;
    var i :| 0 <= i < |queue| && |queue[i]| > 0 && queue[i][|queue[i]| - 1] == v;
    if i > 0 {
      assert rest[i - 1] == queue[i];
      QueuedMore(rest, added, v);
    }
  }

  // ---- The whole search ----

  /** When nothing waits, every path from `from` ends at something found no
      further away than the path is long. */
  lemma {:induction false} FoundAlong(g: Graph, paths: map<string, seq<string>>, from: string, done: set<string>,
                                      path: seq<string>, to: string)
    requires Progress(g, paths, from, [], done) && Path(g, path, from, to)
    ensures Found(paths, from, to) && Distance(paths, from, to) <= |path|
  {
    if |path| > 1 {
      var shorter := path[..|path| - 1];
      var at := path[|path| - 2];
      FoundAlong(g, paths, from, done, shorter, at);
      assert at in done;
      assert Settled(g, paths, from, at);
      assert path[|path| - 1] in Edges(g, path[|path| - 2]);
    }
  }

  /** Every id an edge leads to. */
  ghost function Targets(g: Graph): set<string> {
    set id, next | id in g.edges && next in g.edges[id] :: next
  }

  lemma VisitTargets(g: Graph, path: seq<string>, from: string, paths: map<string, seq<string>>,
                     added: seq<seq<string>>, paths': map<string, seq<string>>)
    requires paths.Keys <= Targets(g) && VisitDone(g, path, from, paths, added, paths')
    ensures paths'.Keys <= Targets(g) && paths.Keys <= paths'.Keys
    ensures added != [] ==> paths.Keys < paths'.Keys
  {
    forall v | v in paths' ensures v in Targets(g) {
      if v !in paths { assert NewFrom(g, path, from, paths', added, v); }
    }
  }

  /** `paths` hold exactly the packages other than `from` that some path reaches,
      each with a shortest path to it. */
  ghost predicate ReachedFrom(g: Graph, from: string, paths: map<string, seq<string>>) {
    && (forall to :: to in paths <==> to != from && Reaches(g, from, to))
    && (forall to :: to in paths ==> Shortest(g, paths[to], from, to))
  }

  lemma SearchComplete(g: Graph, paths: map<string, seq<string>>, from: string, done: set<string>)
    requires Searching(g, paths, from, [], done)
    ensures ReachedFrom(g, from, paths)
  {
    forall to ensures to in paths <==> to != from && Reaches(g, from, to) {
      if Reaches(g, from, to) {
        var path :| Path(g, path, from, to);
        FoundAlong(g, paths, from, done, path, to);
      }
    }
    forall to, other | to in paths && Path(g, other, from, to) ensures |paths[to]| <= |other| {
      FoundAlong(g, paths, from, done, other, to);
    }
  }

  method Reached(g: Graph, from: string) returns (paths: map<string, seq<string>>)
    ensures ReachedFrom(g, from, paths)
  {
    paths := map[];
    var queue := [[from]];
    ghost var done: set<string> := {};
    assert queue[0][|queue[0]| - 1] == from;
    while queue != []
      invariant Searching(g, paths, from, queue, done) && paths.Keys <= Targets(g)
      decreases Targets(g) - paths.Keys, |queue|
    {
      var path, rest := queue[0], queue[1..];
      assert queue == [path] + rest;
      assert Stored(paths, from, path);
      ghost var before := paths;
      paths, queue := Visit(g, path, from, paths, rest);
      ghost var added :| VisitDone(g, path, from, before, added, paths) && queue == rest + added;
      VisitKeepsPaths(g, path, from, before, added, paths);
      VisitKeepsQueue(g, path, from, before, rest, added, paths);
      VisitProgress(g, path, from, before, rest, added, paths, done);
      VisitTargets(g, path, from, before, added, paths);
      done := done + {path[|path| - 1]};
    }
    SearchComplete(g, paths, from, done);
  }
}
