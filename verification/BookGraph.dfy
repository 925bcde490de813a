/** The relation graph between titles: breadth-first shortest connection and depth-bounded learning path. */
module BookGraphs {
  import opened Types
  import opened Sorting

  datatype Edge = Edge(target: Isbn, weight: real, relation: string)

  datatype Meta = Meta(isbn: Isbn, title: string, category: string, rating: real)

  type Graph = map<Isbn, seq<Edge>>

  /** Every edge leads to a node; `add_relation` keeps this by creating missing endpoints. */
  ghost predicate Closed(g: Graph) {
    forall n, e :: n in g && e in g[n] ==> e.target in g
  }

  predicate HasEdge(g: Graph, a: Isbn, b: Isbn) {
    a in g && exists e :: e in g[a] && e.target == b
  }

  /** A nonempty sequence of nodes, each joined to the next by an edge. */
  ghost predicate Walk(g: Graph, w: seq<Isbn>) {
    && w != []
    && w[0] in g
    && forall i :: 0 <= i < |w| - 1 ==> HasEdge(g, w[i], w[i + 1])
  }

  ghost predicate Connects(g: Graph, w: seq<Isbn>, a: Isbn, b: Isbn) {
    Walk(g, w) && w[0] == a && w[|w| - 1] == b
  }

  ghost predicate Reachable(g: Graph, a: Isbn, b: Isbn) {
    exists w :: Connects(g, w, a, b)
  }

  lemma WalkExtends(g: Graph, w: seq<Isbn>, n: Isbn)
    requires Walk(g, w) && HasEdge(g, w[|w| - 1], n)
    ensures Walk(g, w + [n])
  {
  }

  lemma WalkStaysInside(g: Graph, w: seq<Isbn>, inside: set<Isbn>)
    requires Walk(g, w) && w[0] in inside
    requires forall a, b :: a in inside && HasEdge(g, a, b) ==> b in inside
    ensures w[|w| - 1] in inside
  {
    var i := 0;
    while i < |w| - 1
      invariant 0 <= i < |w| && w[i] in inside
    {
      assert HasEdge(g, w[i], w[i + 1]);
      i := i + 1;
    }
  }

  // ---- breadth-first search

  type Path = seq<Isbn>

  function End(p: Path): Isbn {
    if p == [] then Isbn("") else p[|p| - 1]
  }

  ghost predicate EndsQueued(queue: seq<Path>, x: Isbn) {
    exists i :: 0 <= i < |queue| && End(queue[i]) == x
  }

  ghost predicate Shortest(g: Graph, start: Isbn, p: Path) {
    Connects(g, p, start, End(p)) && forall w :: Connects(g, w, start, End(p)) ==> |p| <= |w|
  }

  /** The queue spans at most two neighbouring lengths, shorter paths first. */
  ghost predicate Levels(queue: seq<Path>) {
    forall i, j :: 0 <= i < j < |queue| ==> |queue[i]| <= |queue[j]| <= |queue[0]| + 1
  }

  /** What the search loop knows: `done` are the visited nodes whose edges have been followed. */
  ghost predicate Frontier(g: Graph, start: Isbn, visited: set<Isbn>, done: set<Isbn>, queue: seq<Path>) {
    && start in visited && done <= visited
    && (forall x :: x in visited ==> x in done || EndsQueued(queue, x))
    && (forall i :: 0 <= i < |queue| ==> End(queue[i]) in visited && Shortest(g, start, queue[i]))
    && (forall a, b :: a in done && HasEdge(g, a, b) ==> b in visited)
    && Levels(queue)
  }

  /** A walk that leaves `done` does so through the end of a queued path, and no sooner than that path's length. */
  lemma LeavesThroughQueue(g: Graph, start: Isbn, visited: set<Isbn>, done: set<Isbn>, queue: seq<Path>, w: Path)
    returns (k: nat, i: nat)
    requires Frontier(g, start, visited, done, queue)
    requires Walk(g, w) && w[0] == start && End(w) !in done
    ensures k < |w| && i < |queue| && End(queue[i]) == w[k] && |queue[i]| <= k + 1
  {
    k := 0;
    while w[k] in done
      invariant 0 <= k < |w| && w[k] in visited
      decreases |w| - k
    {
      assert HasEdge(g, w[k], w[k + 1]);
      k := k + 1;
    }
    assert EndsQueued(queue, w[k]);
    i :| 0 <= i < |queue| && End(queue[i]) == w[k];
    assert Shortest(g, start, queue[i]);
    assert Connects(g, w[..k + 1], start, w[k]);
  }

  /** Extending the first queued path to an unvisited node gives a shortest path. */
  lemma NewPathIsShortest(g: Graph, start: Isbn, visited: set<Isbn>, done: set<Isbn>, queue: seq<Path>, x: Isbn)
    requires Frontier(g, start, visited, done, queue) && queue != []
    requires HasEdge(g, End(queue[0]), x) && x !in visited
    ensures Shortest(g, start, queue[0] + [x])
  {
    var p := queue[0] + [x];
    assert Shortest(g, start, queue[0]);
    WalkExtends(g, queue[0], x);
    forall w | Connects(g, w, start, x) ensures |p| <= |w| {
      var k, i := LeavesThroughQueue(g, start, visited, done, queue, w);
      assert End(queue[i]) in visited;
      assert |queue[0]| <= |queue[i]|;
    }
  }

  lemma EmptyFrontierIsEverything(g: Graph, start: Isbn, visited: set<Isbn>, done: set<Isbn>, target: Isbn)
    requires Frontier(g, start, visited, done, []) && target !in done
    ensures !Reachable(g, start, target)
  {
    if w :| Connects(g, w, start, target) {
      var k, i := LeavesThroughQueue(g, start, visited, done, [], w);
    }
  }

  /** `queue'` drops the first path and appends its extensions to the nodes of `found`. */
  ghost predicate Expansion(queue: seq<Path>, found: seq<Isbn>, queue': seq<Path>) {
    && queue != [] && |queue'| == |queue| - 1 + |found|
    && (forall i :: 0 <= i < |queue| - 1 ==> queue'[i] == queue[i + 1])
    && (forall i :: 0 <= i < |found| ==> queue'[|queue| - 1 + i] == queue[0] + [found[i]])
  }

  /** `visited'` is `visited` with the nodes of `found`, none of which was there. */
  ghost predicate Added(visited: set<Isbn>, found: seq<Isbn>, visited': set<Isbn>) {
    && (forall x :: x in visited' <==> x in visited || x in found)
    && (forall x :: x in found ==> x !in visited)
  }

  lemma ExpandKeepsFrontier(
    g: Graph, start: Isbn, visited: set<Isbn>, done: set<Isbn>, queue: seq<Path>,
    found: seq<Isbn>, visited': set<Isbn>, queue': seq<Path>)
    requires Frontier(g, start, visited, done, queue)
    requires Expansion(queue, found, queue') && Added(visited, found, visited')
    requires forall x :: x in found ==> HasEdge(g, End(queue[0]), x)
    requires forall x :: HasEdge(g, End(queue[0]), x) ==> x in visited'
    ensures Frontier(g, start, visited', done + {End(queue[0])}, queue')
  {
    var done' := done + {End(queue[0])};
    forall x | x in visited' ensures x in done' || EndsQueued(queue', x) {
      if x in found {
        var i :| 0 <= i < |found| && found[i] == x;
        assert End(queue'[|queue| - 1 + i]) == x;
      } else if x !in done' {
        assert EndsQueued(queue, x);
        var i :| 0 <= i < |queue| && End(queue[i]) == x;
        assert queue'[i - 1] == queue[i];
      }
    }
    forall i | 0 <= i < |queue'| ensures End(queue'[i]) in visited' && Shortest(g, start, queue'[i]) {
      if i < |queue| - 1 {
        assert queue'[i] == queue[i + 1];
      } else {
        var x := found[i - (|queue| - 1)];
        assert queue'[|queue| - 1 + (i - (|queue| - 1))] == queue[0] + [x];
        NewPathIsShortest(g, start, visited, done, queue, x);
      }
    }
    ExpandKeepsLevels(queue, found, queue');
  }

  lemma ExpandKeepsLevels(queue: seq<Path>, found: seq<Isbn>, queue': seq<Path>)
    requires Levels(queue) && Expansion(queue, found, queue')
    ensures Levels(queue')
  {
    forall i | 0 <= i < |queue'|
      ensures i >= |queue| - 1 ==> |queue'[i]| == |queue[0]| + 1
      ensures |queue[0]| <= |queue'[i]| <= |queue[0]| + 1
    {
      if i >= |queue| - 1 {
        assert queue'[|queue| - 1 + (i - (|queue| - 1))] == queue[0] + [found[i - (|queue| - 1)]];
      }
    }
  }

  function Describe(p: Path, meta: map<Isbn, Meta>): (r: seq<Meta>)
    requires forall i :: 0 <= i < |p| ==> p[i] in meta
    ensures |r| == |p| && forall i :: 0 <= i < |p| ==> r[i] == meta[p[i]]
  {
    seq(|p|, i requires 0 <= i < |p| => meta[p[i]])
  }

  function Out(g: Graph, n: Isbn): seq<Edge> {
    if n in g then g[n] else []
  }

  /** What relating two titles appends to a title's edges, in this order. */
  function NewEdges(n: Isbn, from: Isbn, to: Isbn, weight: real, relation: string, bidirectional: bool): seq<Edge> {
    (if n == from then [Edge(to, weight, relation)] else []) +
    (if bidirectional && n == to then [Edge(from, weight, relation)] else [])
  }

  /** A title met for the first time in a relation gets a stand-in description; any other keeps its own. */
  function Described(meta: map<Isbn, Meta>, n: Isbn): map<Isbn, Meta> {
    if n in meta then meta else meta[n := Meta(n, "Book " + n.text, "General", 4.0)]
  }

  lemma BothDescribed(meta: map<Isbn, Meta>, from: Isbn, to: Isbn)
    ensures var meta' := Described(Described(meta, from), to);
      && (forall n :: n in meta ==> n in meta' && meta'[n] == meta[n])
      && forall n :: (n == from || n == to) && n !in meta ==> n in meta' && meta'[n] == Meta(n, "Book " + n.text, "General", 4.0)
  {
  }

  function WithNode(g: Graph, n: Isbn): Graph {
    if n in g then g else g[n := []]
  }

  lemma NodesAdded(g: Graph, from: Isbn, to: Isbn)
    ensures WithNode(WithNode(g, from), to).Keys == g.Keys + {from, to}
    ensures forall n :: Out(WithNode(WithNode(g, from), to), n) == Out(g, n)
  {
  }

  lemma ListsGrow(h: Graph, g: Graph, from: Isbn, to: Isbn, weight: real, relation: string, bidirectional: bool)
    requires from in h && to in h
    requires var once := h[from := h[from] + [Edge(to, weight, relation)]];
      g == if bidirectional then once[to := once[to] + [Edge(from, weight, relation)]] else once
    ensures g.Keys == h.Keys
    ensures Edge(to, weight, relation) in g[from] && (bidirectional ==> Edge(from, weight, relation) in g[to])
    ensures forall n :: n in h ==> g[n] == h[n] + NewEdges(n, from, to, weight, relation, bidirectional)
  {
  }

  lemma RelatingAddsEdges(g: Graph, g': Graph, from: Isbn, to: Isbn, weight: real, relation: string, bidirectional: bool)
    requires g'.Keys == g.Keys + {from, to}
    requires forall n :: n in g' ==> g'[n] == Out(g, n) + NewEdges(n, from, to, weight, relation, bidirectional)
    ensures forall a, b :: HasEdge(g', a, b) <==>
      HasEdge(g, a, b) || (a == from && b == to) || (bidirectional && a == to && b == from)
  {
    forall a, b ensures HasEdge(g', a, b) <==>
      HasEdge(g, a, b) || (a == from && b == to) || (bidirectional && a == to && b == from)
    {
      if a in g' {
        var old', new' := Out(g, a), NewEdges(a, from, to, weight, relation, bidirectional);
        assert forall e :: e in g'[a] <==> e in old' || e in new';
        assert Edge(to, weight, relation) in new' <==> a == from || (bidirectional && a == to && from == to);
        assert bidirectional && a == to ==> Edge(from, weight, relation) in new';
      }
    }
  }

  class BookGraphEngine {
    var adjList: Graph
    var nodesMeta: map<Isbn, Meta>

    ghost predicate Valid()
      reads this
    {
      && Closed(adjList)
      && adjList.Keys == nodesMeta.Keys
      && forall n :: n in nodesMeta ==> nodesMeta[n].isbn == n
    }

    constructor ()
      ensures Valid() && adjList == map[]
    {
      adjList, nodesMeta := map[], map[];
    }

    method AddBookNode(isbn: Isbn, title: string, category: string, rating: real)
      requires Valid()
      modifies this
      ensures Valid()
      ensures adjList == if isbn in old(adjList) then old(adjList) else old(adjList)[isbn := []]
      ensures nodesMeta == old(nodesMeta)[isbn := Meta(isbn, title, category, rating)]
    {
      if isbn !in adjList {
        adjList := adjList[isbn := []];
      }
      nodesMeta := nodesMeta[isbn := Meta(isbn, title, category, rating)];
    }

    method AddRelation(from: Isbn, to: Isbn, weight: real, relation: string, bidirectional: bool)
      requires Valid()
      modifies this
      ensures Valid()
      ensures adjList.Keys == old(adjList).Keys + {from, to}
      ensures forall n :: n in adjList ==> adjList[n] == Out(old(adjList), n) + NewEdges(n, from, to, weight, relation, bidirectional)
      ensures Edge(to, weight, relation) in adjList[from] && (bidirectional ==> Edge(from, weight, relation) in adjList[to])
      ensures nodesMeta == Described(Described(old(nodesMeta), from), to)
      ensures forall n :: n in old(nodesMeta) ==> n in nodesMeta && nodesMeta[n] == old(nodesMeta)[n]
      ensures forall n :: (n == from || n == to) && n !in old(nodesMeta) ==>
        n in nodesMeta && nodesMeta[n] == Meta(n, "Book " + n.text, "General", 4.0)
      ensures forall a, b :: HasEdge(adjList, a, b) <==>
        HasEdge(old(adjList), a, b) || (a == from && b == to) || (bidirectional && a == to && b == from)
    {
      ghost var g := adjList;
      EnsureNode(from);
      EnsureNode(to);
      ghost var h := adjList;
      AppendEdge(from, Edge(to, weight, relation));
      if bidirectional {
        AppendEdge(to, Edge(from, weight, relation));
      }
      BothDescribed(old(nodesMeta), from, to);
      NodesAdded(g, from, to);
      ListsGrow(h, adjList, from, to, weight, relation, bidirectional);
      RelatingAddsEdges(g, adjList, from, to, weight, relation, bidirectional);
    }

    method EnsureNode(n: Isbn)
      requires Valid()
      modifies this
      ensures Valid() && nodesMeta == Described(old(nodesMeta), n)
      ensures adjList == WithNode(old(adjList), n)
    {
      if n !in adjList {
        AddBookNode(n, "Book " + n.text, "General", 4.0);
      }
    }

    method AppendEdge(from: Isbn, edge: Edge)
      requires Valid() && from in adjList && edge.target in adjList
      modifies `adjList
      ensures Valid() && adjList == old(adjList)[from := old(adjList)[from] + [edge]]
    {
      adjList := adjList[from := adjList[from] + [edge]];
    }

    /** No answer exactly when an endpoint is missing or unreachable; otherwise a real path with fewest edges. */
    method BfsShortestPath(start: Isbn, target: Isbn) returns (r: Option<seq<Meta>>)
      requires Valid()
      ensures r.None? <==> start !in adjList || target !in adjList || !Reachable(adjList, start, target)
      ensures r.Some? ==> exists p ::
        && Connects(adjList, p, start, target)
        && (forall w :: Connects(adjList, w, start, target) ==> |p| <= |w|)
        && (forall i :: 0 <= i < |p| ==> p[i] in nodesMeta) && r.value == Describe(p, nodesMeta)
    {
      if start !in adjList || target !in adjList {
        return None;
      }
      var visited := {start};
      var queue := [[start]];
      ghost var done := {};
      while queue != []
        invariant Frontier(adjList, start, visited, done, queue)
        invariant visited <= adjList.Keys && target !in done
        decreases adjList.Keys - visited, |queue|
      {
        var path := queue[0];
        assert Shortest(adjList, start, path);
        if path[|path| - 1] == target {
          WalkInside(adjList, path);
          return Some(Describe(path, nodesMeta));
        }
        ghost var done' := done + {End(path)};
        visited, queue := Expand(start, visited, done, queue);
        done := done';
      }
      EmptyFrontierIsEverything(adjList, start, visited, done, target);
      r := None;
    }

    /** One turn of the search loop: drop the first path and queue its extensions to nodes not yet visited. */
    method Expand(start: Isbn, visited: set<Isbn>, ghost done: set<Isbn>, queue: seq<Path>)
      returns (visited': set<Isbn>, queue': seq<Path>)
      requires Valid() && queue != [] && visited <= adjList.Keys
      requires Frontier(adjList, start, visited, done, queue)
      ensures Frontier(adjList, start, visited', done + {End(queue[0])}, queue')
      ensures visited <= visited' <= adjList.Keys && (visited' == visited ==> |queue'| < |queue|)
    {
      var path := queue[0];
      assert Shortest(adjList, start, path) && End(path) in visited;
      ghost var found;
      var current := path[|path| - 1];
      visited', queue', found := FollowEdges(path, adjList[current], visited, queue[1..]);
      assert [path] + queue[1..] == queue;
      assert forall x :: HasEdge(adjList, current, x) ==> x in visited';
      ExpandKeepsFrontier(adjList, start, visited, done, queue, found, visited', queue');
      assert found != [] ==> found[0] in found;
    }
  }

  method FollowEdges(path: Path, edges: seq<Edge>, visited: set<Isbn>, rest: seq<Path>)
    returns (visited': set<Isbn>, queue': seq<Path>, ghost found: seq<Isbn>)
    ensures Added(visited, found, visited')
    ensures forall x :: x in found ==> exists e :: e in edges && e.target == x
    ensures forall e :: e in edges ==> e.target in visited'
    ensures Expansion([path] + rest, found, queue')
  {
    visited', queue', found := visited, rest, [];
    for i := 0 to |edges|
      invariant Expansion([path] + rest, found, queue')
      invariant Added(visited, found, visited')
      invariant forall x :: x in found ==> exists e :: e in edges && e.target == x
      invariant forall k :: 0 <= k < i ==> edges[k].target in visited'
    {
      var next := edges[i].target;
      if next !in visited' {
        visited', queue', found := visited' + {next}, queue' + [path + [next]], found + [next];
      }
    }
  }

  lemma WalkInside(g: Graph, w: Path)
    requires Closed(g) && Walk(g, w)
    ensures forall i :: 0 <= i < |w| ==> w[i] in g
  {
    forall i | 0 <= i < |w| ensures w[i] in g {
      if i > 0 {
        assert HasEdge(g, w[i - 1], w[i - 1 + 1]);
      }
    }
  }

  // ---- depth-bounded depth-first search

  predicate Heavier(a: Edge, b: Edge) {
    a.weight > b.weight
  }

  /** The visit of `node`, met at `depth`, appended to the nodes visited so far. */
  function Visit(g: Graph, node: Isbn, depth: int, maxDepth: int, path: Path): Path
    decreases if depth > maxDepth then 0 else maxDepth - depth + 1, 1, 0
  {
    if depth > maxDepth || node in path then path
    else VisitEdges(g, Sort(if node in g then g[node] else [], Heavier), depth, maxDepth, path + [node])
  }

  function VisitEdges(g: Graph, edges: seq<Edge>, depth: int, maxDepth: int, path: Path): Path
    requires depth <= maxDepth
    decreases maxDepth - depth + 1, 0, |edges|
  {
    if edges == [] then path
    else
      var target := edges[0].target;
      VisitEdges(g, edges[1..], depth, maxDepth,
                 if target in path then path else Visit(g, target, depth + 1, maxDepth, path))
  }

  /** The recursive search as written, with the visited set and the path it grows. */
  method Dfs(g: Graph, node: Isbn, depth: int, maxDepth: int, visited: set<Isbn>, path: Path)
    returns (visited': set<Isbn>, path': Path)
    requires forall x :: x in visited <==> x in path
    ensures path' == Visit(g, node, depth, maxDepth, path)
    ensures forall x :: x in visited' <==> x in path'
    decreases if depth > maxDepth then 0 else maxDepth - depth + 1
  {
    visited', path' := visited, path;
    if depth > maxDepth || node in visited {
      return;
    }
    visited', path' := visited + {node}, path + [node];
    var sorted := Sort(if node in g then g[node] else [], Heavier);
    for i := 0 to |sorted|
      invariant forall x :: x in visited' <==> x in path'
      invariant VisitEdges(g, sorted[i..], depth, maxDepth, path') == Visit(g, node, depth, maxDepth, path)
    {
      if sorted[i].target !in visited' {
        visited', path' := Dfs(g, sorted[i].target, depth + 1, maxDepth, visited', path');
      }
    }
  }

  method DfsLearningPath(engine: BookGraphEngine, start: Isbn, maxDepth: int) returns (r: seq<Meta>)
    requires engine.Valid()
    ensures start !in engine.adjList ==> r == []
    ensures start in engine.adjList ==>
      var p := Visit(engine.adjList, start, 1, maxDepth, []);
      (forall i :: 0 <= i < |p| ==> p[i] in engine.nodesMeta) && r == Describe(p, engine.nodesMeta)
  {
    if start !in engine.adjList {
      return [];
    }
    var visited, path := Dfs(engine.adjList, start, 1, maxDepth, {}, []);
    LearningPathIsSound(engine.adjList, start, maxDepth);
    r := Describe(path, engine.nodesMeta);
  }

  ghost predicate Within(g: Graph, a: Isbn, b: Isbn, nodes: int) {
    exists w :: Connects(g, w, a, b) && |w| <= nodes
  }

  ghost predicate Distinct(p: Path) {
    forall i, j :: 0 <= i < j < |p| ==> p[i] != p[j]
  }

  ghost predicate ReachedFromEarlier(g: Graph, p: Path, j: nat)
    requires j < |p|
  {
    exists i :: 0 <= i < j && HasEdge(g, p[i], p[j])
  }

  /** A search trace: no node twice, from `start`, each later node joined to an earlier one, none too deep. */
  ghost predicate Trace(g: Graph, start: Isbn, maxDepth: int, p: Path) {
    && Distinct(p)
    && (p != [] ==> p[0] == start)
    && (forall j :: 0 < j < |p| ==> ReachedFromEarlier(g, p, j))
    && (forall x :: x in p ==> x in g && Within(g, start, x, maxDepth))
  }

  lemma TraceExtends(g: Graph, start: Isbn, maxDepth: int, p: Path, x: Isbn)
    requires Trace(g, start, maxDepth, p) && x !in p && x in g && Within(g, start, x, maxDepth)
    requires if p == [] then x == start else exists y :: y in p && HasEdge(g, y, x)
    ensures Trace(g, start, maxDepth, p + [x])
  {
    var q := p + [x];
    forall j | 0 < j < |q| ensures ReachedFromEarlier(g, q, j) {
      if j == |p| {
        var y :| y in p && HasEdge(g, y, x);
        var i :| 0 <= i < |p| && p[i] == y;
        assert HasEdge(g, q[i], q[j]);
      } else {
        assert ReachedFromEarlier(g, p, j);
        var i :| 0 <= i < j && HasEdge(g, p[i], p[j]);
        assert HasEdge(g, q[i], q[j]);
      }
    }
  }

  lemma {:induction false} VisitKeepsTrace(g: Graph, start: Isbn, node: Isbn, depth: int, maxDepth: int, path: Path, w: Path)
    requires Closed(g) && Trace(g, start, maxDepth, path)
    requires Connects(g, w, start, node) && |w| == depth
    requires path != [] ==> exists y :: y in path && HasEdge(g, y, node)
    requires path == [] ==> node == start
    ensures var r := Visit(g, node, depth, maxDepth, path);
      Trace(g, start, maxDepth, r) && path <= r && (depth <= maxDepth ==> node in r)
    decreases if depth > maxDepth then 0 else maxDepth - depth + 1, 1, 0
  {
    if depth <= maxDepth && node !in path {
      WalkInside(g, w);
      TraceExtends(g, start, maxDepth, path, node);
      SortKeepsEdges(g[node]);
      assert node in path + [node];
      VisitEdgesKeepsTrace(g, start, node, Sort(g[node], Heavier), depth, maxDepth, path + [node], w);
    }
  }

  lemma SortKeepsEdges(edges: seq<Edge>)
    ensures Sorted(Sort(edges, Heavier), Heavier)
    ensures forall e :: e in Sort(edges, Heavier) <==> e in edges
  {
    SortIsStable(edges, Heavier);
    PermutationKeepsMembers(edges, Sort(edges, Heavier));
  }

  lemma {:induction false} VisitEdgesKeepsTrace(
    g: Graph, start: Isbn, node: Isbn, edges: seq<Edge>, depth: int, maxDepth: int, path: Path, w: Path)
    requires Closed(g) && Trace(g, start, maxDepth, path) && depth <= maxDepth
    requires Connects(g, w, start, node) && |w| == depth && node in path
    requires forall e :: e in edges ==> HasEdge(g, node, e.target)
    ensures var r := VisitEdges(g, edges, depth, maxDepth, path);
      Trace(g, start, maxDepth, r) && path <= r
    decreases maxDepth - depth + 1, 0, |edges|
  {
    if edges != [] {
      var target := edges[0].target;
      assert edges[0] in edges;
      WalkExtends(g, w, target);
      var path' := path;
      if target !in path {
        VisitKeepsTrace(g, start, target, depth + 1, maxDepth, path, w + [target]);
        path' := Visit(g, target, depth + 1, maxDepth, path);
      }
      VisitEdgesKeepsTrace(g, start, node, edges[1..], depth, maxDepth, path', w);
    }
  }

  /** The learning path starts at `start`, repeats nothing, grows along edges and goes no deeper than the bound. */
  lemma LearningPathIsSound(g: Graph, start: Isbn, maxDepth: int)
    requires Closed(g) && start in g
    ensures var p := Visit(g, start, 1, maxDepth, []);
      Trace(g, start, maxDepth, p) && (maxDepth >= 1 ==> p != [])
  {
    assert Connects(g, [start], start, start);
    VisitKeepsTrace(g, start, start, 1, maxDepth, [], [start]);
  }

  // ---- completeness when the bound is out of the way

  lemma {:induction false} DistinctFits(p: Path, s: set<Isbn>)
    requires Distinct(p) && forall x :: x in p ==> x in s
    ensures |p| <= |s|
  {
    if p != [] {
      var last := p[|p| - 1];
      DistinctFits(p[..|p| - 1], s - {last});
    }
  }

  /** All edges out of the nodes that `q` adds to `p` lead into `q`. */
  ghost predicate Finished(g: Graph, p: Path, q: Path) {
    forall x, y :: x in q && x !in p && HasEdge(g, x, y) ==> y in q
  }

  lemma {:induction false} VisitFinishes(g: Graph, start: Isbn, node: Isbn, depth: int, maxDepth: int, path: Path, w: Path)
    requires Closed(g) && Trace(g, start, maxDepth, path) && maxDepth >= |g|
    requires Connects(g, w, start, node) && |w| == depth && depth <= |path| + 1
    requires path != [] ==> exists y :: y in path && HasEdge(g, y, node)
    requires path == [] ==> node == start
    ensures var r := Visit(g, node, depth, maxDepth, path); node in r && path <= r && Finished(g, path, r)
    decreases if depth > maxDepth then 0 else maxDepth - depth + 1, 1, 0
  {
    VisitKeepsTrace(g, start, node, depth, maxDepth, path, w);
    if node !in path {
      WalkInside(g, w);
      assert Distinct(path + [node]);
      DistinctFits(path + [node], g.Keys);
      TraceExtends(g, start, maxDepth, path, node);
      SortKeepsEdges(g[node]);
      assert node in path + [node];
      VisitEdgesFinishes(g, start, node, Sort(g[node], Heavier), depth, maxDepth, path + [node], w);
    }
  }

  lemma {:induction false} VisitEdgesFinishes(
    g: Graph, start: Isbn, node: Isbn, edges: seq<Edge>, depth: int, maxDepth: int, path: Path, w: Path)
    requires Closed(g) && Trace(g, start, maxDepth, path) && |g| <= maxDepth && depth <= maxDepth
    requires Connects(g, w, start, node) && |w| == depth <= |path| && node in path
    requires forall e :: e in edges ==> HasEdge(g, node, e.target)
    ensures var r := VisitEdges(g, edges, depth, maxDepth, path);
      path <= r && Finished(g, path, r) && forall e :: e in edges ==> e.target in r
    decreases maxDepth - depth + 1, 0, |edges|
  {
    if edges != [] {
      var target := edges[0].target;
      assert edges[0] in edges;
      WalkExtends(g, w, target);
      var path' := path;
      if target !in path {
        VisitKeepsTrace(g, start, target, depth + 1, maxDepth, path, w + [target]);
        VisitFinishes(g, start, target, depth + 1, maxDepth, path, w + [target]);
        path' := Visit(g, target, depth + 1, maxDepth, path);
      }
      VisitEdgesFinishes(g, start, node, edges[1..], depth, maxDepth, path', w);
    }
  }

  /** With a bound of at least the number of titles, the learning path is exactly what is reachable. */
  lemma LearningPathIsComplete(g: Graph, start: Isbn, maxDepth: int)
    requires Closed(g) && start in g && maxDepth >= |g|
    ensures forall x :: x in Visit(g, start, 1, maxDepth, []) <==> Reachable(g, start, x)
  {
    var p := Visit(g, start, 1, maxDepth, []);
    assert Connects(g, [start], start, start);
    VisitFinishes(g, start, start, 1, maxDepth, [], [start]);
    LearningPathIsSound(g, start, maxDepth);
    forall x | Reachable(g, start, x) ensures x in p {
      var w :| Connects(g, w, start, x);
      WalkStaysInside(g, w, set y | y in p);
    }
  }

  // ---- which bounds list everything within them

  /** The learning path has every title within the bound, and no other. */
  ghost predicate ListsAllWithin(g: Graph, start: Isbn, maxDepth: int) {
    forall x :: x in Visit(g, start, 1, maxDepth, []) <==> Within(g, start, x, maxDepth)
  }

  /** A deep enough bound lists what is reachable, all of it within the bound. */
  lemma DeepBoundListsAll(g: Graph, start: Isbn, maxDepth: int)
    requires Closed(g) && start in g && maxDepth >= |g|
    ensures ListsAllWithin(g, start, maxDepth)
  {
    LearningPathIsSound(g, start, maxDepth);
    LearningPathIsComplete(g, start, maxDepth);
  }

  /** Above the bound, the target of every edge is listed. */
  lemma {:induction false} TargetsAreListed(
    g: Graph, start: Isbn, node: Isbn, edges: seq<Edge>, depth: int, maxDepth: int, path: Path, w: Path)
    requires Closed(g) && Trace(g, start, maxDepth, path) && depth < maxDepth
    requires Connects(g, w, start, node) && |w| == depth && node in path
    requires forall e :: e in edges ==> HasEdge(g, node, e.target)
    ensures forall e :: e in edges ==> e.target in VisitEdges(g, edges, depth, maxDepth, path)
  {
    if edges != [] {
      var target := edges[0].target;
      assert edges[0] in edges;
      WalkExtends(g, w, target);
      var path' := path;
      if target !in path {
        VisitKeepsTrace(g, start, target, depth + 1, maxDepth, path, w + [target]);
        path' := Visit(g, target, depth + 1, maxDepth, path);
      }
      TargetsAreListed(g, start, node, edges[1..], depth, maxDepth, path', w);
      VisitEdgesKeepsTrace(g, start, node, edges[1..], depth, maxDepth, path', w);
    }
  }

  lemma NeighbourIsListed(g: Graph, start: Isbn, x: Isbn)
    requires Closed(g) && HasEdge(g, start, x)
    ensures x in Visit(g, start, 1, 2, [])
  {
    var edges := Sort(g[start], Heavier);
    SortKeepsEdges(g[start]);
    LearningPathStart(g, start, 2);
    assert Connects(g, [start], start, start) && [] + [start] == [start];
    TargetsAreListed(g, start, start, edges, 1, 2, [start], [start]);
    var e :| e in g[start] && e.target == x;
    assert e in edges;
  }

  /** Up to a bound of two nothing can be met too late. */
  lemma ShallowBoundListsAll(g: Graph, start: Isbn, maxDepth: int)
    requires Closed(g) && start in g && maxDepth <= 2
    ensures ListsAllWithin(g, start, maxDepth)
  {
    LearningPathIsSound(g, start, maxDepth);
    forall x | Within(g, start, x, maxDepth) ensures x in Visit(g, start, 1, maxDepth, []) {
      var w :| Connects(g, w, start, x) && |w| <= maxDepth;
      if |w| == 2 {
        assert HasEdge(g, w[0], w[0 + 1]);
        NeighbourIsListed(g, start, x);
      }
    }
  }

  // In between, a chain 1, 2, ..., d with a lighter shortcut from 1 to d, and d leading on to d + 1.

  function Marks(k: nat): (r: string)
    ensures |r| == k
  {
    if k == 0 then "" else Marks(k - 1) + "x"
  }

  function Node(k: nat): Isbn {
    Isbn(Marks(k))
  }

  function Link(to: nat, weight: real): Edge {
    Edge(Node(to), weight, "PREREQUISITE_FOR")
  }

  function Links(k: nat, d: nat): seq<Edge> {
    if k == 1 then [Link(2, 0.9), Link(d, 0.5)] else if k <= d then [Link(k + 1, 0.9)] else []
  }

  /** The chain with its shortcut, and titles without relations beyond it: `n` titles in all. */
  function Detour(n: nat, d: nat): Graph {
    if n == 0 then map[] else Detour(n - 1, d)[Node(n) := Links(n, d)]
  }

  ghost predicate IsDetour(g: Graph, n: nat, d: nat) {
    && |g| == n
    && (forall x :: x in g ==> 1 <= |x.text| <= n && x == Node(|x.text|))
    && (forall k :: 1 <= k <= n ==> HasLinks(g, k, d))
  }

  ghost predicate HasLinks(g: Graph, k: nat, d: nat) {
    Node(k) in g && g[Node(k)] == Links(k, d)
  }

  lemma {:induction false} DetourNodes(n: nat, d: nat)
    ensures IsDetour(Detour(n, d), n, d)
  {
    if n > 0 {
      var g, h := Detour(n, d), Detour(n - 1, d);
      DetourNodes(n - 1, d);
      assert Node(n) !in h;
      assert |g| == |h| + 1;
      forall k | 1 <= k <= n ensures HasLinks(g, k, d) {
        if k < n {
          assert HasLinks(h, k, d) && |Node(k).text| == k;
        }
      }
    }
  }

  function Chain(k: nat): Path {
    if k == 0 then [] else Chain(k - 1) + [Node(k)]
  }

  lemma {:induction false} ChainNodes(k: nat, j: nat)
    ensures Node(j) in Chain(k) <==> 1 <= j <= k
  {
    if k > 0 {
      ChainNodes(k - 1, j);
      assert Node(j) == Node(k) ==> |Marks(j)| == |Marks(k)|;
    }
  }

  lemma SortSingle(e: Edge)
    ensures Sort([e], Heavier) == [e]
  {
  }

  /** A node with one edge to a title not listed yet adds itself and what is found there. */
  lemma VisitOnly(g: Graph, node: Isbn, e: Edge, depth: int, maxDepth: int, before: Path, after: Path)
    requires node in g && g[node] == [e] && depth <= maxDepth && node !in before
    requires after == before + [node] && e.target !in after
    ensures Visit(g, node, depth, maxDepth, before) == Visit(g, e.target, depth + 1, maxDepth, after)
  {
    SortSingle(e);
    var rest := Visit(g, e.target, depth + 1, maxDepth, after);
    assert [e][1..] == [] && VisitEdges(g, [], depth, maxDepth, rest) == rest;
  }

  /** From the k-th title on, the search runs down the chain and stops at the bound. */
  lemma {:induction false} ChainIsFollowed(g: Graph, n: nat, d: nat, k: nat)
    requires IsDetour(g, n, d) && 2 <= k <= d < n
    ensures Visit(g, Node(k), k, d, Chain(k - 1)) == Chain(d)
    decreases d - k
  {
    ChainNodes(k - 1, k);
    ChainNodes(k, k + 1);
    assert HasLinks(g, k, d);
    VisitOnly(g, Node(k), Link(k + 1, 0.9), k, d, Chain(k - 1), Chain(k));
    if k < d {
      ChainIsFollowed(g, n, d, k + 1);
    }
  }

  lemma DetourIsClosed(g: Graph, n: nat, d: nat)
    requires IsDetour(g, n, d) && 3 <= d < n
    ensures Closed(g)
  {
    forall x: Isbn, e: Edge | x in g && e in g[x] ensures e.target in g {
      var k := |x.text|;
      assert HasLinks(g, k, d) && HasLinks(g, 2, d) && HasLinks(g, d, d);
      assert k <= d ==> HasLinks(g, k + 1, d);
    }
  }

  /** From the first title the search goes down the chain and finds the shortcut's end listed already. */
  lemma DetourListsTheChain(g: Graph, n: nat, d: nat)
    requires IsDetour(g, n, d) && 3 <= d < n
    ensures Visit(g, Node(1), 1, d, []) == Chain(d)
  {
    var heavy, light := Link(2, 0.9), Link(d, 0.5);
    assert HasLinks(g, 1, d);
    SortSingle(light);
    assert [heavy, light][1..] == [light] && [light][1..] == [];
    assert Sort([heavy, light], Heavier) == [heavy, light];
    assert Chain(1) == [] + [Node(1)] by { assert Chain(0) == []; }
    ChainIsFollowed(g, n, d, 2);
    ChainNodes(1, 2);
    ChainNodes(d, d);
    assert VisitEdges(g, [], 1, d, Chain(d)) == Chain(d);
    assert VisitEdges(g, [light], 1, d, Chain(d)) == Chain(d);
    assert VisitEdges(g, [heavy, light], 1, d, Chain(1)) == Chain(d);
  }

  /** For every other bound some graph hides a title that is three titles away: the chain's end is met on the long way. */
  lemma BoundHidesNearTitle(n: nat, d: nat)
    requires 3 <= d < n
    ensures var g := Detour(n, d);
      && Closed(g) && |g| == n && Node(1) in g
      && Within(g, Node(1), Node(d + 1), 3) && Node(d + 1) !in Visit(g, Node(1), 1, d, [])
  {
    var g := Detour(n, d);
    DetourNodes(n, d);
    DetourIsClosed(g, n, d);
    DetourListsTheChain(g, n, d);
    ChainNodes(d, d + 1);
    assert HasLinks(g, 1, d) && HasLinks(g, d, d);
    assert g[Node(1)][1] == Link(d, 0.5) && g[Node(d)][0] == Link(d + 1, 0.9);
    var w := [Node(1), Node(d), Node(d + 1)];
    assert HasEdge(g, w[0], w[1]) && HasEdge(g, w[1], w[2]);
    assert Connects(g, w, Node(1), Node(d + 1));
  }

  /** So over all graphs of `n` titles, a bound lists everything within it exactly when it is at most two or at least `n`. */
  lemma BoundListsAllIff(n: nat, maxDepth: int)
    ensures (forall g, start :: Closed(g) && |g| == n && start in g ==> ListsAllWithin(g, start, maxDepth)) <==>
      maxDepth <= 2 || maxDepth >= n
  {
    forall g, start | Closed(g) && |g| == n && start in g && (maxDepth <= 2 || maxDepth >= n)
      ensures ListsAllWithin(g, start, maxDepth)
    {
      if maxDepth <= 2 {
        ShallowBoundListsAll(g, start, maxDepth);
      } else {
        DeepBoundListsAll(g, start, maxDepth);
      }
    }
    if 3 <= maxDepth < n {
      BoundHidesNearTitle(n, maxDepth);
      assert Within(Detour(n, maxDepth), Node(1), Node(maxDepth + 1), maxDepth);
      assert !ListsAllWithin(Detour(n, maxDepth), Node(1), maxDepth);
    }
  }

  /** The second title of a path is the target of a heaviest edge out of `start` to another title. */
  lemma HeaviestNeighbourNext(g: Graph, start: Isbn, maxDepth: int, e: Edge)
    requires Closed(g) && start in g && maxDepth >= 2 && e in g[start] && e.target != start
    ensures var p := Visit(g, start, 1, maxDepth, []);
      |p| >= 2 && exists f :: f in g[start] && f.target == p[1] && f.weight >= e.weight
  {
    var edges := Sort(g[start], Heavier);
    SortKeepsEdges(g[start]);
    assert [] + [start] == [start];
    assert Connects(g, [start], start, start);
    assert Trace(g, start, maxDepth, [start]) by { LearningPathStart(g, start, maxDepth); }
    FirstFreshEdge(g, start, maxDepth, edges, e);
  }

  lemma LearningPathStart(g: Graph, start: Isbn, maxDepth: int)
    requires start in g && maxDepth >= 1
    ensures Trace(g, start, maxDepth, [start])
  {
    assert Connects(g, [start], start, start);
  }

  lemma {:induction false} FirstFreshEdge(g: Graph, start: Isbn, maxDepth: int, edges: seq<Edge>, e: Edge)
    requires Closed(g) && start in g && maxDepth >= 2 && e in edges && e.target != start
    requires Sorted(edges, Heavier) && forall f :: f in edges ==> f in g[start]
    ensures var p := VisitEdges(g, edges, 1, maxDepth, [start]);
      |p| >= 2 && exists f :: f in edges && f.target == p[1] && f.weight >= e.weight
  {
    var f := edges[0];
    assert f in edges;
    if f.target == start {
      assert e in edges[1..];
      FirstFreshEdge(g, start, maxDepth, edges[1..], e);
    } else {
      var p1 := Visit(g, f.target, 2, maxDepth, [start]);
      LearningPathStart(g, start, maxDepth);
      assert Connects(g, [start], start, start) && HasEdge(g, start, f.target);
      WalkExtends(g, [start], f.target);
      assert Connects(g, [start, f.target], start, f.target) by { assert [start] + [f.target] == [start, f.target]; }
      assert start in [start];
      VisitKeepsTrace(g, start, f.target, 2, maxDepth, [start], [start, f.target]);
      SecondNode(g, f.target, maxDepth, start);
      VisitEdgesKeepsTrace(g, start, start, edges[1..], 1, maxDepth, p1, [start]);
      assert p1[1] == f.target;
      var k :| 0 <= k < |edges| && edges[k] == e;
    }
  }

  lemma SecondNode(g: Graph, node: Isbn, maxDepth: int, start: Isbn)
    requires Closed(g) && start in g && HasEdge(g, start, node) && node != start && maxDepth >= 2
    ensures var p := Visit(g, node, 2, maxDepth, [start]); |p| >= 2 && p[1] == node
  {
    LearningPathStart(g, start, maxDepth);
    var w := [start] + [node];
    WalkExtends(g, [start], node);
    assert Connects(g, w, start, node);
    assert node in g && Within(g, start, node, maxDepth);
    assert start in [start];
    TraceExtends(g, start, maxDepth, [start], node);
    SortKeepsEdges(g[node]);
    assert node in [start] + [node];
    VisitEdgesKeepsTrace(g, start, node, Sort(g[node], Heavier), 2, maxDepth, [start] + [node], w);
  }
}
