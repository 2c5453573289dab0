/**
 * GraphEngine.findShortestPath's breadth-first search and reconstructPath,
 * over a graph given as the function from an id to the ids its relations
 * point at, in stored order.
 *
 * The search keeps a FIFO queue, a visited set and a parent map (child to
 * parent). A ghost map `dist` records, for each visited id, the number of
 * hops of the parent chain that leads to it from the start; it is what makes
 * reconstructPath terminate and what bounds the hops of the result.
 */
module Paths {
  import opened Wrappers

  type Graph = string -> seq<string>

  /** Each consecutive pair is joined by a relation. */
  predicate IsWalk(g: Graph, p: seq<string>) {
    forall i | 0 <= i < |p| - 1 :: p[i + 1] in g(p[i])
  }

  /** No id occurs twice. */
  predicate NoRepeats(p: seq<string>) {
    forall i, j | 0 <= i < j < |p| :: p[i] != p[j]
  }

  /**
   * The parent map is a tree rooted at `start` inside the visited set: every
   * visited id but the start has a parent one hop closer to the start, joined
   * to it by a relation, and the start has none.
   */
  ghost predicate Tree(g: Graph, start: string, visited: set<string>, parent: map<string, string>, dist: map<string, nat>) {
    && start in visited && start !in parent
    && dist.Keys == visited && dist[start] == 0
    && (forall c | c in visited && c != start :: c in parent)
    && (forall c | c in parent :: c in visited && parent[c] in visited && c in g(parent[c]) && dist[c] == dist[parent[c]] + 1)
  }

  /**
   * reconstructPath: follow the parent map from `endId` back to a node with no
   * parent, adding each id at the front.
   */
  method ReconstructPath(parent: map<string, string>, endId: string, ghost g: Graph, ghost start: string,
                         ghost visited: set<string>, ghost dist: map<string, nat>)
    returns (path: seq<string>)
    requires Tree(g, start, visited, parent, dist) && endId in visited
    ensures |path| == dist[endId] + 1
    ensures path[0] == start && path[|path| - 1] == endId
    ensures IsWalk(g, path) && NoRepeats(path)
    ensures forall i | 0 < i < |path| :: path[i] in parent && parent[path[i]] == path[i - 1]
  {
    path := [endId];
    var curr := endId;
    while curr in parent
      invariant curr in visited && path != [] && path[0] == curr && path[|path| - 1] == endId
      invariant |path| == dist[endId] - dist[curr] + 1
      invariant forall i | 0 <= i < |path| :: path[i] in visited && dist[path[i]] == dist[curr] + i
      invariant forall i | 0 < i < |path| :: path[i] in parent && parent[path[i]] == path[i - 1]
      decreases dist[curr]
    {
      curr := parent[curr];
      path := [curr] + path;
    }
    assert curr == start;
    forall i, j | 0 <= i < j < |path| ensures path[i] != path[j] {
      assert dist[path[i]] < dist[path[j]];
    }
  }

  /**
   * What holds of the search state while level `depth` is expanded: the tree,
   * every visited id at most `depth` hops from the start, every queued id
   * visited, and the first `older` queued ids (those queued before this level)
   * fewer than `depth` hops from the start.
   */
  ghost predicate Frontier(g: Graph, start: string, visited: set<string>, parent: map<string, string>,
                           dist: map<string, nat>, queue: seq<string>, depth: int, older: int) {
    && Tree(g, start, visited, parent, dist)
    && 0 <= older <= |queue|
    && (forall v | v in visited :: dist[v] <= depth)
    && (forall k | 0 <= k < |queue| :: queue[k] in visited)
    && (forall k | 0 <= k < older :: dist[queue[k]] < depth)
  }

  /** Discovering a new successor of `current` keeps the frontier. */
  lemma Discover(g: Graph, start: string, visited: set<string>, parent: map<string, string>,
                 dist: map<string, nat>, queue: seq<string>, depth: int, older: int, current: string, neighbor: string)
    requires Frontier(g, start, visited, parent, dist, queue, depth, older)
    requires current in visited && dist[current] < depth && neighbor !in visited && neighbor in g(current)
    ensures Frontier(g, start, visited + {neighbor}, parent[neighbor := current], dist[neighbor := dist[current] + 1],
                     queue + [neighbor], depth, older)
  {
    var q := queue + [neighbor];
    assert forall k | 0 <= k < |queue| :: q[k] == queue[k];
  }

  /**
   * The inner loop of findShortestPath: visit the successors of `current` in
   * order, queueing and parenting each one not yet visited, and stop as soon
   * as the end id is discovered.
   */
  method ExpandNode(g: Graph, ghost start: string, endId: string, current: string, queue: seq<string>,
                    visited: set<string>, parent: map<string, string>, ghost dist: map<string, nat>,
                    ghost depth: int, ghost older: int)
    returns (found: bool, queue': seq<string>, visited': set<string>, parent': map<string, string>,
             ghost dist': map<string, nat>)
    requires Frontier(g, start, visited, parent, dist, queue, depth, older)
    requires endId !in visited && current in visited && dist[current] < depth
    ensures visited <= visited'
    ensures found ==> Tree(g, start, visited', parent', dist') && endId in visited'
                      && dist'[endId] == dist[current] + 1
    ensures !found ==> Frontier(g, start, visited', parent', dist', queue', depth, older) && endId !in visited'
    ensures !found ==> forall v | v in g(current) :: v in visited'
  {
    found, queue', visited', parent', dist' := false, queue, visited, parent, dist;
    var next := g(current);
    for j := 0 to |next|
      invariant Frontier(g, start, visited', parent', dist', queue', depth, older) && endId !in visited'
      invariant visited <= visited' && !found
      invariant current in visited' && dist'[current] == dist[current]
      invariant forall k | 0 <= k < j :: next[k] in visited'
    {
      var neighbor := next[j];
      if neighbor !in visited' {
        Discover(g, start, visited', parent', dist', queue', depth, older, current, neighbor);
        visited' := visited' + {neighbor};
        parent' := parent'[neighbor := current];
        dist' := dist'[neighbor := dist'[current] + 1];
        queue' := queue' + [neighbor];
        if neighbor == endId {
          found := true;
          return;
        }
      }
    }
  }

  /** At the start of the next level, every queued id is closer than that level. */
  lemma NextLevel(g: Graph, start: string, visited: set<string>, parent: map<string, string>,
                  dist: map<string, nat>, queue: seq<string>, depth: int)
    requires Frontier(g, start, visited, parent, dist, queue, depth, 0)
    ensures Frontier(g, start, visited, parent, dist, queue, depth + 1, |queue|)
  {
  }

  /** Polling the queue head, queued before this level, keeps the frontier. */
  lemma Dequeue(g: Graph, start: string, visited: set<string>, parent: map<string, string>,
                dist: map<string, nat>, queue: seq<string>, depth: int, older: int)
    requires Frontier(g, start, visited, parent, dist, queue, depth, older) && older > 0
    ensures queue[0] in visited && dist[queue[0]] < depth
    ensures Frontier(g, start, visited, parent, dist, queue[1..], depth, older - 1)
  {
    assert forall k | 0 <= k < |queue| - 1 :: queue[1..][k] == queue[k + 1];
  }

  /**
   * One level of findShortestPath: poll the ids queued before the level, in
   * order; return the path when one is the end id or discovers it.
   */
  method ExpandLevel(g: Graph, ghost start: string, endId: string, queue: seq<string>, visited: set<string>,
                     parent: map<string, string>, ghost dist: map<string, nat>, ghost depth: int)
    returns (done: bool, path: seq<string>, queue': seq<string>, visited': set<string>,
             parent': map<string, string>, ghost dist': map<string, nat>)
    requires Frontier(g, start, visited, parent, dist, queue, depth, |queue|)
    requires endId in visited ==> queue != [] && queue[0] == endId
    ensures done ==> path != [] && path[0] == start && path[|path| - 1] == endId && |path| <= depth + 1
    ensures done ==> IsWalk(g, path) && NoRepeats(path)
    ensures !done ==> Frontier(g, start, visited', parent', dist', queue', depth, 0) && endId !in visited'
    ensures !done ==> visited <= visited'
    ensures !done && queue != [] ==> forall v | v in g(queue[0]) :: v in visited'
  {
    done, path, queue', visited', parent', dist' := false, [], queue, visited, parent, dist;
    var levelSize := |queue|;
    for i := 0 to levelSize
      invariant Frontier(g, start, visited', parent', dist', queue', depth, levelSize - i)
      invariant visited <= visited' && !done
      invariant endId in visited' ==> i == 0 && queue' == queue
      invariant i == 0 ==> queue' == queue && visited' == visited
      invariant i >= 1 ==> forall v | v in g(queue[0]) :: v in visited'
    {
      Dequeue(g, start, visited', parent', dist', queue', depth, levelSize - i);
      var current := queue'[0];
      queue' := queue'[1..];
      var found := current == endId;
      if !found {
        found, queue', visited', parent', dist' := ExpandNode(g, start, endId, current, queue', visited', parent', dist', depth, levelSize - i - 1);
      }
      if found {
        path := ReconstructPath(parent', endId, g, start, visited', dist');
        done := true;
        return;
      }
    }
  }

  /**
   * The search loop of findShortestPath, expanding at most `levels` levels.
   * Java's `if (currentDepth++ > maxDepth) break;` expands maxDepth + 1
   * levels; the intended bound of maxDepth hops expands maxDepth levels.
   *
   * The result is empty, or a walk from the start to the end along relations,
   * with no repeated id and at most `levels` hops. With no level to expand it
   * is empty; when the end is a direct successor of the start and one level
   * may be expanded, it is that single hop.
   */
  method Explore(g: Graph, startId: string, endId: string, levels: int) returns (path: seq<string>)
    ensures path != [] ==> path[0] == startId && path[|path| - 1] == endId
    ensures IsWalk(g, path) && NoRepeats(path)
    ensures path != [] ==> |path| <= levels + 1
    ensures levels <= 0 ==> path == []
    ensures levels >= 1 && startId != endId && endId in g(startId) ==> path == [startId, endId]
  {
    var queue := [startId];
    var visited := {startId};
    var parent: map<string, string> := map[];
    ghost var dist: map<string, nat> := map[startId := 0];
    var depth := 0;
    while queue != [] && depth < levels
      invariant Frontier(g, startId, visited, parent, dist, queue, depth, 0)
      invariant 0 <= depth && (levels >= 0 ==> depth <= levels)
      invariant depth == 0 ==> queue == [startId]
      invariant depth >= 1 ==> endId !in visited
      invariant depth >= 1 && startId != endId ==> forall v | v in g(startId) :: v in visited
      decreases levels - depth
    {
      NextLevel(g, startId, visited, parent, dist, queue, depth);
      depth := depth + 1;
      var done;
      done, path, queue, visited, parent, dist := ExpandLevel(g, startId, endId, queue, visited, parent, dist, depth);
      if done {
        return;
      }
    }
    path := [];
  }

  /**
   * The search as findShortestPath writes it: `currentDepth++ > maxDepth`
   * lets maxDepth + 1 levels be expanded, so a path may have one hop more
   * than maxDepth.
   */
  method SearchAsWritten(g: Graph, startId: string, endId: string, maxDepth: int) returns (path: seq<string>)
    ensures path != [] ==> path[0] == startId && path[|path| - 1] == endId
    ensures IsWalk(g, path) && NoRepeats(path)
    ensures path != [] ==> |path| - 1 <= maxDepth + 1
    ensures maxDepth < 0 ==> path == []
    ensures maxDepth >= 0 && startId != endId && endId in g(startId) ==> path == [startId, endId]
  {
    path := Explore(g, startId, endId, maxDepth + 1);
  }

  /**
   * With maxDepth 0 and a relation a -> b, the search as written returns the
   * one-hop path [a, b], more hops than maxDepth allows.
   */
  method OverrunExample() returns (path: seq<string>, maxDepth: int)
    ensures path == ["a", "b"] && maxDepth == 0
    ensures |path| - 1 > maxDepth
  {
    var g: Graph := x => if x == "a" then ["b"] else [];
    maxDepth := 0;
    path := SearchAsWritten(g, "a", "b", maxDepth);
  }

  /**
   * The search with the intended bound: at most maxDepth levels, so every path
   * found has at most maxDepth hops; none is found with a maxDepth below 1.
   */
  method Search(g: Graph, startId: string, endId: string, maxDepth: int) returns (path: seq<string>)
    ensures path != [] ==> path[0] == startId && path[|path| - 1] == endId
    ensures IsWalk(g, path) && NoRepeats(path)
    ensures path != [] ==> |path| - 1 <= maxDepth
    ensures maxDepth <= 0 ==> path == []
    ensures maxDepth >= 1 && startId != endId && endId in g(startId) ==> path == [startId, endId]
  {
    path := Explore(g, startId, endId, maxDepth);
  }
}
