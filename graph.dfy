/** The Graph class: an undirected graph over the vertices 0..V-1 stored as a
    V-by-V 0/1 adjacency matrix, with breadth-first and depth-first path
    searches that leave their result in a path buffer of 1-based vertex
    identifiers. */
module Core {
  import opened Walks
  import opened Layering
  import opened Exploration

  /** `p` is a chain of parent pointers read from the root down: the first
      vertex has parent -1 and every later vertex has the one before it as
      its parent. */
  ghost predicate ParentChain(par: seq<int>, p: seq<int>)
  {
    && |p| > 0
    && (forall k :: 0 <= k < |p| ==> 0 <= p[k] < |par|)
    && par[p[0]] == -1
    && (forall k :: 1 <= k < |p| ==> par[p[k]] == p[k - 1])
  }

  /** The vertices passed on the way up from t to -1, read backwards, are a
      parent chain. */
  lemma TraceChain(m: seq<seq<int>>, vis: seq<int>, par: seq<int>, lvl: seq<int>, s: int, t: int, rev: seq<int>)
    requires Shape(m, vis, par, lvl) && 0 <= s < |m| && 0 <= t < |m|
    requires Trace(m, vis, par, lvl, s, t, rev, -1)
    ensures ParentChain(par, Reversed(rev))
  {
    var p, n := Reversed(rev), |rev|;
    assert forall k :: 0 <= k < n ==> p[k] == rev[n - 1 - k];
  }

  class Graph {
    const V: nat
    const adj: array2<int>
    const visited: array<int>
    const parent: array<int>
    const path: array<int>
    var pathIndex: nat

    /** The adjacency matrix as a value; Valid() ties it to `adj`. */
    ghost var M: seq<seq<int>>

    ghost predicate Valid()
      reads this, adj, visited
    {
      && adj.Length0 == V && adj.Length1 == V
      && visited.Length == V && parent.Length == V && path.Length == V
      && visited != parent && visited != path && parent != path
      && pathIndex <= V
      && |M| == V && Undirected(M)
      && (forall i, j :: 0 <= i < V && 0 <= j < V ==> adj[i, j] == M[i][j])
      && (forall k :: 0 <= k < V ==> visited[k] == 0 || visited[k] == 1)
    }

    /** A graph on `vertexCount` vertices with no edges and cleared search state. */
    constructor (vertexCount: nat)
      ensures Valid() && V == vertexCount
      ensures M == Empty(vertexCount)
      ensures forall k :: 0 <= k < V ==> visited[k] == 0 && path[k] == 0 && parent[k] == -1
      ensures pathIndex == 0
      ensures fresh(adj) && fresh(visited) && fresh(parent) && fresh(path)
    {
      V := vertexCount;
      adj := new int[vertexCount, vertexCount]((_, _) => 0);
      visited := new int[vertexCount];
      parent := new int[vertexCount];
      path := new int[vertexCount];
      pathIndex := 0;
      M := Empty(vertexCount);
      new;
      for i := 0 to vertexCount
        invariant M == Empty(vertexCount) && pathIndex == 0
        invariant forall a, b :: 0 <= a < V && 0 <= b < V ==> adj[a, b] == 0
        invariant forall k :: 0 <= k < i ==> visited[k] == 0 && path[k] == 0 && parent[k] == -1
      {
        visited[i] := 0;
        path[i] := 0;
        parent[i] := -1;
      }
    }

    /** Inserts the undirected edge between the 1-based vertices v1 and v2;
        fails, changing nothing, when either is not a vertex. */
    method AddEdge(v1: int, v2: int) returns (ok: bool)
      requires Valid()
      modifies this`M, adj
      ensures Valid()
      ensures ok <==> 1 <= v1 <= V && 1 <= v2 <= V
      ensures ok ==> M == WithEdge(old(M), v1 - 1, v2 - 1)
      ensures !ok ==> M == old(M) && unchanged(adj)
    {
      var a, b := v1 - 1, v2 - 1;
      if 0 <= a < V && 0 <= b < V {
        adj[a, b] := 1;
        adj[b, a] := 1;
        WithEdgeUndirected(M, a, b);
        M := WithEdge(M, a, b);
        return true;
      }
      return false;
    }

    /** The contents of the path buffer: the result of the last search. */
    function GetPath(): (p: seq<int>)
      reads this, adj, visited, path
      requires Valid()
      ensures |p| == pathIndex <= V
      ensures forall k :: 0 <= k < |p| ==> p[k] == path[k]
    {
      path[..pathIndex]
    }

    /** The adjacency matrix, read out of the array. */
    function GetAdjacencyMatrix(): (m: seq<seq<int>>)
      reads this, adj, visited
      requires Valid()
      ensures m == M
    {
      var m := seq(adj.Length0, i requires 0 <= i < adj.Length0 reads adj =>
                 seq(adj.Length1, j requires 0 <= j < adj.Length1 reads adj => adj[i, j]));
      SameMatrix(m, M);
      m
    }

    /** Breadth-first search from `start` for `end` (0-based). Vertices are
        marked visited when they are enqueued and neighbours are scanned in
        ascending order. On success the path buffer holds a shortest path
        as 1-based identifiers; on failure it is empty. `rounds` counts the
        dequeues. */
    method Bfs(start: int, end: int) returns (found: bool, ghost rounds: nat)
      requires Valid()
      requires 0 <= start < V && 0 <= end < V
      modifies this`pathIndex, visited, parent, path
      ensures Valid()
      ensures found <==> Reachable(M, start, end)
      ensures found ==> IsShortestWalk(M, ZeroBased(GetPath()), start, end) && Distinct(ZeroBased(GetPath()))
      ensures !found ==> pathIndex == 0
      ensures rounds <= V
    {
      for i := 0 to V
        invariant forall k :: 0 <= k < i ==> visited[k] == 0 && path[k] == 0 && parent[k] == -1
      {
        visited[i] := 0;
        path[i] := 0;
        parent[i] := -1;
      }
      pathIndex := 0;

      var queue: seq<int> := [];
      visited[start] := 1;
      parent[start] := -1;
      queue := queue + [start];
      ghost var lvl: seq<int> := seq(V, _ => 0);
      FrontierStart(M, visited[..], parent[..], lvl, start, end);
      rounds := 0;

      while |queue| > 0
        invariant Valid() && pathIndex == 0 && |lvl| == V
        invariant rounds + |queue| == Ones(visited[..])
        invariant Frontier(M, visited[..], parent[..], lvl, queue, start, end)
        decreases V - rounds
      {
        ghost var q0 := queue;
        var current := queue[0];
        queue := queue[1..];
        rounds := rounds + 1;

        if current == end {
          FrontierFound(M, visited[..], parent[..], lvl, q0, start, end);
          RebuildPath(start, end, lvl);
          ghost var p := ZeroBased(GetPath());
          forall q | WalkFromTo(M, q, start, end)
            ensures |p| <= |q|
          {
            LevelLowerBound(M, visited[..], lvl, lvl[end], start, q);
          }
          return true, rounds;
        }

        FrontierDequeue(M, visited[..], parent[..], lvl, q0, start, end);
        queue, lvl := EnqueueNeighbours(start, end, current, queue, lvl, rounds);
        ScanDone(M, visited[..], parent[..], lvl, queue, start, end, current);
      }

      FrontierExhausted(M, visited[..], parent[..], lvl, start, end);
      forall p | IsWalk(M, p) && p[0] == start
        ensures p[|p| - 1] != end
      {
        ClosedContainsWalk(M, visited[..], p);
      }
      return false, rounds;
    }

    /** The neighbour scan of the breadth-first search: every unvisited
        neighbour of `current`, in ascending order, is marked visited, gets
        `current` as parent and one level more, and joins the back of the
        queue; no other mark or parent changes. */
    method EnqueueNeighbours(start: int, end: int, current: int, queue: seq<int>, ghost lvl: seq<int>, ghost rounds: nat)
      returns (queue': seq<int>, ghost lvl': seq<int>)
      requires Valid() && |lvl| == V && 0 <= start < V && 0 <= end < V && 0 <= current < V
      requires rounds + |queue| == Ones(visited[..])
      requires Scanning(M, visited[..], parent[..], lvl, queue, start, end, current, 0)
      modifies visited, parent
      ensures Valid() && |lvl'| == V
      ensures queue' == queue + Discovered(M[current], old(visited[..]), V)
      ensures visited[..] == MarkedUpTo(M[current], old(visited[..]), V)
      ensures parent[..] == ParentsUpTo(M[current], old(visited[..]), old(parent[..]), current, V)
      ensures rounds + |queue'| == Ones(visited[..])
      ensures Scanning(M, visited[..], parent[..], lvl', queue', start, end, current, V)
    {
      ghost var vis0, par0 := visited[..], parent[..];
      queue', lvl' := queue, lvl;
      for i := 0 to V
        invariant Valid() && |lvl'| == V
        invariant Recorded(M[current], vis0, par0, current, queue, visited[..], parent[..], queue', i)
        invariant rounds + |queue'| == Ones(visited[..])
        invariant Scanning(M, visited[..], parent[..], lvl', queue', start, end, current, i)
      {
        queue', lvl' := VisitCandidate(start, end, current, i, queue', lvl', queue, vis0, par0, rounds);
      }
    }

    /** One candidate i of the neighbour scan: an unvisited neighbour of
        `current` is marked, gets `current` as parent and joins the queue;
        any other candidate is passed over. */
    method VisitCandidate(start: int, end: int, current: int, i: int, queue: seq<int>, ghost lvl: seq<int>,
                          ghost queue0: seq<int>, ghost vis0: seq<int>, ghost par0: seq<int>, ghost rounds: nat)
      returns (queue': seq<int>, ghost lvl': seq<int>)
      requires Valid() && |lvl| == V && 0 <= start < V && 0 <= end < V && 0 <= current < V && 0 <= i < V
      requires |vis0| == V && |par0| == V
      requires Recorded(M[current], vis0, par0, current, queue0, visited[..], parent[..], queue, i)
      requires rounds + |queue| == Ones(visited[..])
      requires Scanning(M, visited[..], parent[..], lvl, queue, start, end, current, i)
      modifies visited, parent
      ensures Valid() && |lvl'| == V
      ensures Recorded(M[current], vis0, par0, current, queue0, visited[..], parent[..], queue', i + 1)
      ensures rounds + |queue'| == Ones(visited[..])
      ensures Scanning(M, visited[..], parent[..], lvl', queue', start, end, current, i + 1)
    {
      queue', lvl' := queue, lvl;
      if adj[current, i] == 1 && visited[i] == 0 {
        ScanDiscover(M, visited[..], parent[..], lvl, queue, start, end, current, i);
        RecordDiscover(M[current], vis0, par0, current, queue0, visited[..], parent[..], queue, i);
        ghost var vis, par := visited[..], parent[..];
        visited[i] := 1;
        parent[i] := current;
        assert visited[..] == vis[i := 1] && parent[..] == par[i := current];
        lvl' := lvl[i := lvl[current] + 1];
        queue' := queue + [i];
      } else {
        ScanSkip(M, visited[..], parent[..], lvl, queue, start, end, current, i);
        RecordSkip(M[current], vis0, par0, current, queue0, visited[..], parent[..], queue, i);
      }
    }

    /** Path reconstruction of the breadth-first search: follows the parent
        pointers from `end` back to the root, whose parent is -1, writing
        1-based identifiers, then reverses the buffer in place. */
    method RebuildPath(start: int, end: int, ghost lvl: seq<int>)
      requires Valid()
      requires 0 <= start < V && 0 <= end < V && |lvl| == V
      requires ParentTree(M, visited[..], parent[..], lvl, start)
      requires LevelsBounded(visited[..], lvl) && visited[end] == 1
      modifies this`pathIndex, path
      ensures Valid()
      ensures WalkFromTo(M, ZeroBased(GetPath()), start, end)
      ensures Distinct(ZeroBased(GetPath()))
      ensures |GetPath()| == lvl[end] + 1
      ensures ParentChain(parent[..], ZeroBased(GetPath()))
    {
      var node := end;
      pathIndex := 0;
      ghost var rev: seq<int> := [];
      TraceStart(M, visited[..], parent[..], lvl, start, end);
      while node != -1
        invariant Valid() && pathIndex == |rev|
        invariant Trace(M, visited[..], parent[..], lvl, start, end, rev, node)
        invariant forall k :: 0 <= k < |rev| ==> path[k] == rev[k] + 1
        decreases if node == -1 then 0 else lvl[node] + 1
      {
        TraceStep(M, visited[..], parent[..], lvl, start, end, rev, node);
        path[pathIndex] := node + 1;
        pathIndex := pathIndex + 1;
        rev := rev + [node];
        node := parent[node];
      }
      TraceEnd(M, visited[..], parent[..], lvl, start, end, rev);
      TraceChain(M, visited[..], parent[..], lvl, start, end, rev);

      ghost var ids := path[..pathIndex];
      ReversePath();
      ReversedIds(rev, ids, GetPath());
    }

    /** Reverses the first pathIndex entries of the path buffer in place by
        swapping entries i and pathIndex - 1 - i. */
    method ReversePath()
      requires pathIndex <= path.Length
      modifies path
      ensures path[..pathIndex] == Reversed(old(path[..pathIndex]))
      ensures path[pathIndex..] == old(path[pathIndex..])
    {
      ghost var was := path[..pathIndex];
      var i := 0;
      // `i < pathIndex / 2` in real division
      while i * 2 < pathIndex
        invariant 0 <= i && i * 2 <= pathIndex + 1
        invariant forall k :: 0 <= k < i ==> path[k] == was[pathIndex - 1 - k] && path[pathIndex - 1 - k] == was[k]
        invariant forall k :: i <= k < pathIndex - i ==> path[k] == was[k]
        invariant path[pathIndex..] == old(path[pathIndex..])
      {
        var temp := path[i];
        path[i] := path[pathIndex - 1 - i];
        path[pathIndex - 1 - i] := temp;
        i := i + 1;
      }
    }

    /** Depth-first search from `start` for `end` (0-based). On success the
        path buffer holds a simple path from start + 1 to end + 1 (1-based);
        on failure every pushed vertex has been popped again. */
    method Dfs(start: int, end: int) returns (found: bool)
      requires Valid()
      requires 0 <= start < V && 0 <= end < V
      modifies this`pathIndex, visited, path
      ensures Valid()
      ensures found <==> Reachable(M, start, end)
      ensures found ==> WalkFromTo(M, ZeroBased(GetPath()), start, end) && Distinct(ZeroBased(GetPath()))
      ensures !found ==> pathIndex == 0
    {
      for i := 0 to V
        invariant forall k :: 0 <= k < i ==> path[k] == 0
      {
        path[i] := 0;
      }
      pathIndex := 0;
      // clear every visited mark
      for i := 0 to V
        invariant pathIndex == 0
        invariant forall k :: 0 <= k < i ==> visited[k] == 0
      {
        visited[i] := 0;
      }
      ghost var zeros := visited[..];
      OnesZero(zeros);

      DfsUtil(start, end);

      found := pathIndex > 0 && path[pathIndex - 1] == end + 1;
      if pathIndex > 0 {
        assert GetPath() == path[0..pathIndex];
        assert ZeroBased(GetPath())[pathIndex - 1] == end;
      } else {
        ClosedFromScratch(M, zeros, visited[..]);
        forall p | IsWalk(M, p) && p[0] == start
          ensures p[|p| - 1] != end
        {
          ClosedContainsWalk(M, visited[..], p);
        }
      }
    }

    /** One call of the recursive depth-first search: marks `current`
        visited and pushes current + 1; stops if it is `end`; otherwise
        scans the neighbours, and pops `current` when the scan leaves
        something other than end + 1 on top of the buffer. */
    method DfsUtil(current: int, end: int)
      requires Valid()
      requires 0 <= current < V && 0 <= end < V
      requires visited[current] == 0 && visited[end] == 0
      requires pathIndex <= Ones(visited[..])
      modifies this`pathIndex, visited, path
      decreases V - Ones(visited[..]), 0
      ensures Valid()
      ensures Grows(old(visited[..]), visited[..]) && visited[current] == 1
      ensures Ones(old(visited[..])) < Ones(visited[..])
      ensures old(pathIndex) <= pathIndex
      ensures path[..old(pathIndex)] == old(path[..pathIndex])
      ensures old(pathIndex) < pathIndex ==> Found(M, old(visited[..]), path[..], old(pathIndex), pathIndex, current, end)
      ensures old(pathIndex) == pathIndex ==> visited[end] == 0 && NewlyClosed(M, old(visited[..]), visited[..])
    {
      ghost var before := visited[..];
      OnesSet(before, current);
      visited[current] := 1;
      assert visited[..] == before[current := 1];
      path[pathIndex] := current + 1;
      pathIndex := pathIndex + 1;

      if current == end {
        BranchHere(M, before, end);
        assert path[..][old(pathIndex)..pathIndex] == [end + 1];
        return;
      }

      ExploreStart(M, before, visited[..], current);
      ghost var marked := visited[..];
      ScanNeighbours(current, end, before);
      OnesGrow(marked, visited[..]);
      GrowsTrans(before, marked, visited[..]);
      if path[pathIndex - 1] != end + 1 {
        pathIndex := pathIndex - 1;
      }
    }

    /** The loop of one depth-first call over the candidates 0 .. V - 1 in
        ascending order: recurses into each unvisited neighbour of `current`
        and returns as soon as one of them leaves end + 1 on top of the
        buffer. On success the buffer, from the entry of `current` on, holds
        a branch to `end`; otherwise the buffer is as it was and every vertex
        the call visited is closed. */
    method ScanNeighbours(current: int, end: int, ghost before: seq<int>)
      requires Valid()
      requires 0 <= current < V && 0 <= end < V && current != end
      requires |before| == V && before[current] != 1
      requires Grows(before, visited[..]) && visited[current] == 1 && visited[end] == 0
      requires 1 <= pathIndex <= Ones(visited[..]) && path[pathIndex - 1] == current + 1
      requires Exploring(M, before, visited[..], current, 0)
      modifies this`pathIndex, visited, path
      decreases V - Ones(visited[..]), 2
      ensures Valid()
      ensures Grows(old(visited[..]), visited[..])
      ensures old(pathIndex) <= pathIndex
      ensures path[..old(pathIndex)] == old(path[..pathIndex])
      ensures (path[pathIndex - 1] == end + 1) <==> old(pathIndex) < pathIndex
      ensures old(pathIndex) < pathIndex ==> Found(M, before, path[..], old(pathIndex) - 1, pathIndex, current, end)
      ensures old(pathIndex) == pathIndex ==> visited[end] == 0 && NewlyClosed(M, before, visited[..])
    {
      ghost var p0 := pathIndex;
      for i := 0 to V
        invariant Valid()
        invariant pathIndex == p0 && path[..p0] == old(path[..pathIndex]) && path[p0 - 1] == current + 1
        invariant Grows(old(visited[..]), visited[..])
        invariant visited[current] == 1 && visited[end] == 0
        invariant Exploring(M, before, visited[..], current, i)
      {
        if adj[current, i] == 1 && visited[i] == 0 {
          ghost var buf := path[..p0];
          OnesGrow(old(visited[..]), visited[..]);
          Descend(current, end, i, before, old(visited[..]));
          assert path[..p0] == buf;
          if path[pathIndex - 1] == end + 1 {
            return;
          }
        } else {
          ExploreSkip(M, before, visited[..], current, i);
        }
      }
      ExploreDone(M, before, visited[..], current);
    }

    /** The recursive call into the unvisited neighbour i of `current`, seen
        from the scan of `current`: either the call found `end`, leaving
        end + 1 on top and a branch from `current` on the buffer, or it
        popped everything it pushed and the scan moves past i. */
    method Descend(current: int, end: int, i: int, ghost before: seq<int>, ghost base: seq<int>)
      requires Valid()
      requires 0 <= current < V && 0 <= end < V && 0 <= i < V && current != end
      requires |before| == V && before[current] != 1
      requires Grows(before, base) && Grows(base, visited[..]) && visited[current] == 1 && visited[end] == 0
      requires 1 <= pathIndex <= Ones(base) && path[pathIndex - 1] == current + 1
      requires Exploring(M, before, visited[..], current, i)
      requires adj[current, i] == 1 && visited[i] == 0
      modifies this`pathIndex, visited, path
      decreases V - Ones(visited[..]), 1
      ensures Valid()
      ensures Grows(base, visited[..]) && visited[current] == 1
      ensures old(pathIndex) <= pathIndex
      ensures path[..old(pathIndex)] == old(path[..pathIndex])
      ensures old(pathIndex) < pathIndex ==> Found(M, before, path[..], old(pathIndex) - 1, pathIndex, current, end)
      ensures old(pathIndex) == pathIndex ==>
                path[pathIndex - 1] == current + 1 && visited[end] == 0 && Exploring(M, before, visited[..], current, i + 1)
    {
      ghost var p0 := pathIndex;
      ghost var mid := visited[..];
      ghost var buf := path[..p0];
      OnesGrow(base, mid);
      GrowsTrans(before, base, mid);
      DfsUtil(i, end);
      assert path[..p0] == buf;
      assert path[p0 - 1] == buf[p0 - 1];
      GrowsTrans(base, mid, visited[..]);
      GrowsTrans(before, mid, visited[..]);
      if pathIndex > p0 {
        BranchExtend(M, before, mid, path[..], p0 - 1, pathIndex, current, i, end);
      } else {
        ExploreChildFailed(M, before, mid, visited[..], current, i);
      }
    }
  }
}
