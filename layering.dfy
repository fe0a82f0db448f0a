/** The state of the breadth-first search between its steps, stated over
    values: the visited marks, parent pointers and (ghost) levels of the
    vertices, and the queue. Each step of the search is a lemma here. */
module Layering {
  import opened Walks

  /** The breadth-first layering below level k: each marked vertex of level
      below k has all its neighbours marked, at most one level further. */
  predicate LayeredBelow(m: seq<seq<int>>, vis: seq<int>, lvl: seq<int>, k: int)
    requires IsSquare(m) && |vis| == |m| && |lvl| == |m|
  {
    forall v, w :: 0 <= v < |m| && 0 <= w < |m| && vis[v] == 1 && lvl[v] < k && m[v][w] == 1 ==>
      vis[w] == 1 && lvl[w] <= lvl[v] + 1
  }

  /** In a layering below k rooted at s (level 0), every walk from s with
      fewer than k edges ends at a marked vertex whose level is at most the
      walk's number of edges: no vertex is closer to s than its level says. */
  lemma {:induction false} LevelLowerBound(m: seq<seq<int>>, vis: seq<int>, lvl: seq<int>, k: int, s: int, q: seq<int>)
    requires IsSquare(m) && |vis| == |m| && |lvl| == |m| && LayeredBelow(m, vis, lvl, k)
    requires 0 <= s < |m| && vis[s] == 1 && lvl[s] == 0
    requires IsWalk(m, q) && q[0] == s
    ensures |q| - 1 < k ==> vis[q[|q| - 1]] == 1 && lvl[q[|q| - 1]] <= |q| - 1
  {
    if |q| > 1 {
      LevelLowerBound(m, vis, lvl, k, s, q[..|q| - 1]);
    }
  }

  /** A breadth-first search tree rooted at s: the root has level 0 and no
      parent; every other marked vertex has a marked parent, an edge from it,
      and a level one higher than it. */
  predicate ParentTree(m: seq<seq<int>>, vis: seq<int>, par: seq<int>, lvl: seq<int>, s: int)
    requires IsSquare(m) && |vis| == |m| && |par| == |m| && |lvl| == |m| && 0 <= s < |m|
  {
    && vis[s] == 1 && lvl[s] == 0 && par[s] == -1
    && forall v {:trigger par[v]} :: 0 <= v < |m| && vis[v] == 1 && v != s ==>
         0 <= par[v] < |m| && vis[par[v]] == 1 && m[par[v]][v] == 1 && lvl[v] == lvl[par[v]] + 1
  }

  predicate Shape(m: seq<seq<int>>, vis: seq<int>, par: seq<int>, lvl: seq<int>) {
    IsSquare(m) && |vis| == |m| && |par| == |m| && |lvl| == |m|
  }

  /** Levels are non-negative and below the number of visited vertices. */
  ghost predicate LevelsBounded(vis: seq<int>, lvl: seq<int>)
    requires |vis| == |lvl|
  {
    forall v :: 0 <= v < |vis| && vis[v] == 1 ==> 0 <= lvl[v] < Ones(vis)
  }

  predicate QueueVisited(vis: seq<int>, queue: seq<int>) {
    forall k :: 0 <= k < |queue| ==> 0 <= queue[k] < |vis| && vis[queue[k]] == 1
  }

  /** The queue is sorted by level. */
  predicate QueueSorted(lvl: seq<int>, queue: seq<int>) {
    forall k, l :: 0 <= k <= l < |queue| && 0 <= queue[k] < |lvl| && 0 <= queue[l] < |lvl| ==>
      lvl[queue[k]] <= lvl[queue[l]]
  }

  /** Every queued vertex has level lo or lo + 1. */
  predicate QueueBand(lvl: seq<int>, queue: seq<int>, lo: int) {
    forall k :: 0 <= k < |queue| && 0 <= queue[k] < |lvl| ==> lo <= lvl[queue[k]] <= lo + 1
  }

  /** Every visited vertex that has left the queue has level at most hi. */
  predicate ExpandedBelow(vis: seq<int>, lvl: seq<int>, queue: seq<int>, hi: int)
    requires |vis| == |lvl|
  {
    forall v :: 0 <= v < |vis| && vis[v] == 1 && v !in queue ==> lvl[v] <= hi
  }

  /** Every visited vertex that has left the queue, except c, has all its
      neighbours visited, at most one level further. */
  predicate ExpandedClosed(m: seq<seq<int>>, vis: seq<int>, lvl: seq<int>, queue: seq<int>, c: int)
    requires IsSquare(m) && |vis| == |m| && |lvl| == |m|
  {
    forall v, w :: 0 <= v < |m| && 0 <= w < |m| && vis[v] == 1 && v !in queue && v != c && m[v][w] == 1 ==>
      vis[w] == 1 && lvl[w] <= lvl[v] + 1
  }

  /** The neighbours of c below i are visited, at most one level further. */
  predicate ScannedUpTo(m: seq<seq<int>>, vis: seq<int>, lvl: seq<int>, c: int, i: int)
    requires IsSquare(m) && |vis| == |m| && |lvl| == |m| && 0 <= c < |m|
  {
    forall w :: 0 <= w < i && w < |m| && m[c][w] == 1 ==> vis[w] == 1 && lvl[w] <= lvl[c] + 1
  }

  /** The target, once visited, is still waiting in the queue. */
  predicate TargetWaiting(vis: seq<int>, queue: seq<int>, t: int)
    requires 0 <= t < |vis|
  {
    vis[t] == 1 ==> t in queue
  }

  /** The state of breadth-first search from s towards t at the head of its
      main loop: a search tree; a queue of visited vertices sorted by level
      and spanning at most two consecutive levels; every vertex that has left
      the queue lies at most at the level of the front and is expanded. */
  ghost predicate Frontier(m: seq<seq<int>>, vis: seq<int>, par: seq<int>, lvl: seq<int>, queue: seq<int>, s: int, t: int)
    requires Shape(m, vis, par, lvl) && 0 <= s < |m| && 0 <= t < |m|
  {
    && ParentTree(m, vis, par, lvl, s)
    && LevelsBounded(vis, lvl)
    && QueueVisited(vis, queue)
    && QueueSorted(lvl, queue)
    && (|queue| > 0 ==> QueueBand(lvl, queue, lvl[queue[0]]) && ExpandedBelow(vis, lvl, queue, lvl[queue[0]]))
    && ExpandedClosed(m, vis, lvl, queue, -1)
    && TargetWaiting(vis, queue, t)
  }

  /** The state of breadth-first search while it scans the neighbours of c
      (just dequeued, and not t), having looked at the candidates below i. */
  ghost predicate Scanning(m: seq<seq<int>>, vis: seq<int>, par: seq<int>, lvl: seq<int>, queue: seq<int>, s: int, t: int, c: int, i: int)
    requires Shape(m, vis, par, lvl) && 0 <= s < |m| && 0 <= t < |m| && 0 <= c < |m|
  {
    && ParentTree(m, vis, par, lvl, s)
    && LevelsBounded(vis, lvl)
    && vis[c] == 1 && c != t
    && QueueVisited(vis, queue)
    && QueueSorted(lvl, queue)
    && QueueBand(lvl, queue, lvl[c])
    && ExpandedBelow(vis, lvl, queue, lvl[c])
    && ExpandedClosed(m, vis, lvl, queue, c)
    && ScannedUpTo(m, vis, lvl, c, i)
    && TargetWaiting(vis, queue, t)
  }

  /** The search starts with s visited at level 0, alone in the queue. */
  lemma FrontierStart(m: seq<seq<int>>, vis: seq<int>, par: seq<int>, lvl: seq<int>, s: int, t: int)
    requires Shape(m, vis, par, lvl) && 0 <= s < |m| && 0 <= t < |m|
    requires forall v :: 0 <= v < |m| ==> vis[v] == (if v == s then 1 else 0) && lvl[v] == 0
    requires par[s] == -1
    ensures Ones(vis) == 1
    ensures Frontier(m, vis, par, lvl, [s], s, t)
  {
    var zeros := vis[s := 0];
    OnesZero(zeros);
    OnesSet(zeros, s);
    assert zeros[s := 1] == vis;
  }

  /** Dequeuing a front vertex c other than t starts the scan of c. */
  lemma FrontierDequeue(m: seq<seq<int>>, vis: seq<int>, par: seq<int>, lvl: seq<int>, queue: seq<int>, s: int, t: int)
    requires Shape(m, vis, par, lvl) && 0 <= s < |m| && 0 <= t < |m|
    requires Frontier(m, vis, par, lvl, queue, s, t) && |queue| > 0 && queue[0] != t
    ensures 0 <= queue[0] < |m|
    ensures Scanning(m, vis, par, lvl, queue[1..], s, t, queue[0], 0)
  {
    var rest := queue[1..];
    assert forall k :: 0 <= k < |rest| ==> rest[k] == queue[k + 1];
  }

  /** Hanging an unvisited vertex i below a visited vertex c (with an edge
      from c to i) keeps a search tree a search tree. */
  lemma TreeExtend(m: seq<seq<int>>, vis: seq<int>, par: seq<int>, lvl: seq<int>, s: int, c: int, i: int)
    requires Shape(m, vis, par, lvl) && 0 <= s < |m| && 0 <= c < |m| && 0 <= i < |m|
    requires ParentTree(m, vis, par, lvl, s) && vis[c] == 1 && vis[i] != 1 && m[c][i] == 1
    ensures ParentTree(m, vis[i := 1], par[i := c], lvl[i := lvl[c] + 1], s)
  {
    var vis', par', lvl' := vis[i := 1], par[i := c], lvl[i := lvl[c] + 1];
    forall v | 0 <= v < |m| && vis'[v] == 1 && v != s
      ensures 0 <= par'[v] < |m| && vis'[par'[v]] == 1 && m[par'[v]][v] == 1 && lvl'[v] == lvl'[par'[v]] + 1
    {
      if v != i {
        assert par'[v] == par[v] && vis[v] == 1;
      }
    }
  }

  /** Marking i visited one level above c keeps the levels bounded. */
  lemma BoundedExtend(vis: seq<int>, lvl: seq<int>, c: int, i: int)
    requires |vis| == |lvl| && 0 <= c < |vis| && 0 <= i < |vis|
    requires LevelsBounded(vis, lvl) && vis[c] == 1 && vis[i] != 1
    ensures Ones(vis[i := 1]) == Ones(vis) + 1
    ensures LevelsBounded(vis[i := 1], lvl[i := lvl[c] + 1])
  {
    OnesSet(vis, i);
  }

  /** Appending a newly visited vertex of level lo + 1 keeps the queue
      visited, sorted and within its band. */
  lemma QueueExtend(vis: seq<int>, lvl: seq<int>, queue: seq<int>, t: int, c: int, i: int)
    requires |vis| == |lvl| && 0 <= t < |vis| && 0 <= c < |vis| && 0 <= i < |vis|
    requires vis[c] == 1 && vis[i] != 1
    requires QueueVisited(vis, queue) && QueueSorted(lvl, queue) && QueueBand(lvl, queue, lvl[c])
    requires TargetWaiting(vis, queue, t)
    ensures var vis', lvl', queue' := vis[i := 1], lvl[i := lvl[c] + 1], queue + [i];
      && QueueVisited(vis', queue') && QueueSorted(lvl', queue') && QueueBand(lvl', queue', lvl'[c])
      && TargetWaiting(vis', queue', t)
  {
    var lvl', queue' := lvl[i := lvl[c] + 1], queue + [i];
    assert forall k :: 0 <= k < |queue| ==> queue'[k] == queue[k] && queue[k] != i && lvl'[queue[k]] == lvl[queue[k]];
  }

  /** Marking a neighbour i of c visited, one level above c, and queuing it
      keeps the expanded vertices expanded and extends the scan of c past i. */
  lemma ExpandedExtend(m: seq<seq<int>>, vis: seq<int>, lvl: seq<int>, queue: seq<int>, c: int, i: int)
    requires IsSquare(m) && |vis| == |m| && |lvl| == |m| && 0 <= c < |m| && 0 <= i < |m|
    requires vis[c] == 1 && vis[i] != 1 && m[c][i] == 1
    requires ExpandedBelow(vis, lvl, queue, lvl[c]) && ExpandedClosed(m, vis, lvl, queue, c)
    requires ScannedUpTo(m, vis, lvl, c, i)
    ensures var vis', lvl', queue' := vis[i := 1], lvl[i := lvl[c] + 1], queue + [i];
      && ExpandedBelow(vis', lvl', queue', lvl'[c]) && ExpandedClosed(m, vis', lvl', queue', c)
      && ScannedUpTo(m, vis', lvl', c, i + 1)
  {
    var vis', lvl', queue' := vis[i := 1], lvl[i := lvl[c] + 1], queue + [i];
    forall v | 0 <= v < |m| && vis'[v] == 1 && v !in queue'
      ensures v != i && vis[v] == 1 && v !in queue
    {
    }
  }

  /** An unvisited neighbour i of c is visited with parent c one level above
      c and joins the back of the queue. */
  lemma ScanDiscover(m: seq<seq<int>>, vis: seq<int>, par: seq<int>, lvl: seq<int>, queue: seq<int>, s: int, t: int, c: int, i: int)
    requires Shape(m, vis, par, lvl) && 0 <= s < |m| && 0 <= t < |m| && 0 <= c < |m| && 0 <= i < |m|
    requires Scanning(m, vis, par, lvl, queue, s, t, c, i)
    requires m[c][i] == 1 && vis[i] != 1
    ensures Ones(vis[i := 1]) == Ones(vis) + 1
    ensures Scanning(m, vis[i := 1], par[i := c], lvl[i := lvl[c] + 1], queue + [i], s, t, c, i + 1)
  {
    TreeExtend(m, vis, par, lvl, s, c, i);
    BoundedExtend(vis, lvl, c, i);
    QueueExtend(vis, lvl, queue, t, c, i);
    ExpandedExtend(m, vis, lvl, queue, c, i);
  }

  /** A candidate that is no neighbour of c, or is already visited, changes nothing. */
  lemma ScanSkip(m: seq<seq<int>>, vis: seq<int>, par: seq<int>, lvl: seq<int>, queue: seq<int>, s: int, t: int, c: int, i: int)
    requires Shape(m, vis, par, lvl) && 0 <= s < |m| && 0 <= t < |m| && 0 <= c < |m| && 0 <= i < |m|
    requires Scanning(m, vis, par, lvl, queue, s, t, c, i)
    requires m[c][i] != 1 || vis[i] == 1
    ensures Scanning(m, vis, par, lvl, queue, s, t, c, i + 1)
  {
  }

  /** Once all candidates are scanned, the loop-head state holds again. */
  lemma ScanDone(m: seq<seq<int>>, vis: seq<int>, par: seq<int>, lvl: seq<int>, queue: seq<int>, s: int, t: int, c: int)
    requires Shape(m, vis, par, lvl) && 0 <= s < |m| && 0 <= t < |m| && 0 <= c < |m|
    requires Scanning(m, vis, par, lvl, queue, s, t, c, |m|)
    ensures Frontier(m, vis, par, lvl, queue, s, t)
  {
  }

  /** When t reaches the front of the queue, every vertex of a lower level
      has been expanded: the layering below t's level is complete. */
  lemma FrontierFound(m: seq<seq<int>>, vis: seq<int>, par: seq<int>, lvl: seq<int>, queue: seq<int>, s: int, t: int)
    requires Shape(m, vis, par, lvl) && 0 <= s < |m| && 0 <= t < |m|
    requires Frontier(m, vis, par, lvl, queue, s, t) && |queue| > 0 && queue[0] == t
    ensures LayeredBelow(m, vis, lvl, lvl[t])
  {
  }

  /** When the queue runs empty, the visited vertices are closed under edges
      and t was never visited. */
  lemma FrontierExhausted(m: seq<seq<int>>, vis: seq<int>, par: seq<int>, lvl: seq<int>, s: int, t: int)
    requires Shape(m, vis, par, lvl) && 0 <= s < |m| && 0 <= t < |m|
    requires Frontier(m, vis, par, lvl, [], s, t)
    ensures Closed(m, vis) && vis[s] == 1 && vis[t] != 1
  {
  }

  /** The neighbours found by the scan of one matrix row over the
      candidates below i: the w < i with row[w] == 1 and vis[w] == 0, in
      ascending order, as the scan appends them to the queue. */
  function Discovered(row: seq<int>, vis: seq<int>, i: int): (d: seq<int>)
    requires 0 <= i <= |row| && |vis| == |row|
    ensures |d| <= i
  {
    if i == 0 then []
    else Discovered(row, vis, i - 1) + (if row[i - 1] == 1 && vis[i - 1] == 0 then [i - 1] else [])
  }

  /** The discovered vertices are exactly the unvisited neighbours below i,
      each once, in strictly ascending order. */
  lemma {:induction false} DiscoveredMembers(row: seq<int>, vis: seq<int>, i: int)
    requires 0 <= i <= |row| && |vis| == |row|
    ensures forall w :: w in Discovered(row, vis, i) <==> 0 <= w < i && row[w] == 1 && vis[w] == 0
    ensures forall k, l :: 0 <= k < l < |Discovered(row, vis, i)| ==>
      Discovered(row, vis, i)[k] < Discovered(row, vis, i)[l]
  {
    if i > 0 {
      DiscoveredMembers(row, vis, i - 1);
      var d := Discovered(row, vis, i - 1);
      assert forall k :: 0 <= k < |d| ==> d[k] < i - 1 by {
        forall k | 0 <= k < |d|
          ensures d[k] < i - 1
        {
          assert d[k] in d;
        }
      }
    }
  }

  /** One more candidate adds at most itself to the end of the list. */
  lemma DiscoveredStep(row: seq<int>, vis: seq<int>, i: int)
    requires 0 <= i < |row| && |vis| == |row|
    ensures Discovered(row, vis, i + 1) ==
      if row[i] == 1 && vis[i] == 0 then Discovered(row, vis, i) + [i] else Discovered(row, vis, i)
  {
    if !(row[i] == 1 && vis[i] == 0) {
      assert Discovered(row, vis, i) + [] == Discovered(row, vis, i);
    }
  }

  /** The visited marks after the scan of `row` over the candidates below
      i, candidate by candidate. */
  function MarkedUpTo(row: seq<int>, vis: seq<int>, i: int): (r: seq<int>)
    requires 0 <= i <= |row| && |vis| == |row|
    ensures |r| == |vis|
  {
    if i == 0 then vis
    else
      var r := MarkedUpTo(row, vis, i - 1);
      if row[i - 1] == 1 && vis[i - 1] == 0 then r[i - 1 := 1] else r
  }

  /** The parent pointers after the scan of the row of c over the candidates
      below i, candidate by candidate. */
  function ParentsUpTo(row: seq<int>, vis: seq<int>, par: seq<int>, c: int, i: int): (r: seq<int>)
    requires 0 <= i <= |row| && |vis| == |row| && |par| == |row|
    ensures |r| == |par|
  {
    if i == 0 then par
    else
      var r := ParentsUpTo(row, vis, par, c, i - 1);
      if row[i - 1] == 1 && vis[i - 1] == 0 then r[i - 1 := c] else r
  }

  /** What the neighbour scan of c has done after the candidates below i,
      starting from the marks vis0, the parents par0 and the queue q0. */
  ghost predicate Recorded(row: seq<int>, vis0: seq<int>, par0: seq<int>, c: int, q0: seq<int>,
                           vis: seq<int>, par: seq<int>, q: seq<int>, i: int)
    requires 0 <= i <= |row| && |vis0| == |row| && |par0| == |row|
  {
    vis == MarkedUpTo(row, vis0, i) && par == ParentsUpTo(row, vis0, par0, c, i) && q == q0 + Discovered(row, vis0, i)
  }

  /** Discovering candidate i: it is marked, gets c as parent and joins the
      back of the queue. */
  lemma RecordDiscover(row: seq<int>, vis0: seq<int>, par0: seq<int>, c: int, q0: seq<int>,
                       vis: seq<int>, par: seq<int>, q: seq<int>, i: int)
    requires 0 <= i < |row| && |vis0| == |row| && |par0| == |row|
    requires Recorded(row, vis0, par0, c, q0, vis, par, q, i) && row[i] == 1 && vis[i] == 0
    ensures Recorded(row, vis0, par0, c, q0, vis[i := 1], par[i := c], q + [i], i + 1)
  {
    MarkedAbove(row, vis0, i, i);
    DiscoveredStep(row, vis0, i);
    assert q + [i] == q0 + (Discovered(row, vis0, i) + [i]);
  }

  /** Passing over candidate i changes nothing. */
  lemma RecordSkip(row: seq<int>, vis0: seq<int>, par0: seq<int>, c: int, q0: seq<int>,
                   vis: seq<int>, par: seq<int>, q: seq<int>, i: int)
    requires 0 <= i < |row| && |vis0| == |row| && |par0| == |row|
    requires Recorded(row, vis0, par0, c, q0, vis, par, q, i) && (row[i] != 1 || vis[i] != 0)
    ensures Recorded(row, vis0, par0, c, q0, vis, par, q, i + 1)
  {
    MarkedAbove(row, vis0, i, i);
    DiscoveredStep(row, vis0, i);
  }

  /** The scan so far has not touched the mark of a candidate at or above i. */
  lemma {:induction false} MarkedAbove(row: seq<int>, vis: seq<int>, i: int, w: int)
    requires 0 <= i <= w < |row| && |vis| == |row|
    ensures MarkedUpTo(row, vis, i)[w] == vis[w]
  {
    if i > 0 {
      MarkedAbove(row, vis, i - 1, w);
    }
  }

  /** After the scan below i, exactly the unvisited neighbours below i are
      newly marked and every other mark is as before. */
  lemma {:induction false} MarkedUpToCells(row: seq<int>, vis: seq<int>, i: int)
    requires 0 <= i <= |row| && |vis| == |row|
    ensures forall w :: 0 <= w < |vis| ==>
      MarkedUpTo(row, vis, i)[w] == (if w < i && row[w] == 1 && vis[w] == 0 then 1 else vis[w])
  {
    if i > 0 {
      MarkedUpToCells(row, vis, i - 1);
    }
  }

  /** After the scan below i, exactly the unvisited neighbours below i have
      parent c and every other parent is as before. */
  lemma {:induction false} ParentsUpToCells(row: seq<int>, vis: seq<int>, par: seq<int>, c: int, i: int)
    requires 0 <= i <= |row| && |vis| == |row| && |par| == |row|
    ensures forall w :: 0 <= w < |par| ==>
      ParentsUpTo(row, vis, par, c, i)[w] == (if w < i && row[w] == 1 && vis[w] == 0 then c else par[w])
  {
    if i > 0 {
      ParentsUpToCells(row, vis, par, c, i - 1);
    }
  }

  /** The sequence s backwards. */
  function Reversed(s: seq<int>): (r: seq<int>)
    ensures |r| == |s|
  {
    seq(|s|, k requires 0 <= k < |s| => s[|s| - 1 - k])
  }

  /** Reversing the 1-based identifiers of a vertex sequence names the
      reversed vertex sequence. */
  lemma ReversedIds(rev: seq<int>, ids: seq<int>, out: seq<int>)
    requires |ids| == |rev| && forall k :: 0 <= k < |rev| ==> ids[k] == rev[k] + 1
    requires out == Reversed(ids)
    ensures ZeroBased(out) == Reversed(rev)
  {
  }

  /** The state of the walk along parent pointers from t: `rev` holds the
      vertices passed so far, t first, each the parent of the one before it,
      and `node` is the parent of the last of them (t itself at first), -1
      once the root s has been passed. */
  ghost predicate Trace(m: seq<seq<int>>, vis: seq<int>, par: seq<int>, lvl: seq<int>, s: int, t: int, rev: seq<int>, node: int)
    requires Shape(m, vis, par, lvl) && 0 <= s < |m| && 0 <= t < |m|
  {
    && (forall k :: 0 <= k < |rev| ==> 0 <= rev[k] < |m| && vis[rev[k]] == 1 && lvl[rev[k]] == lvl[t] - k)
    && (forall k :: 1 <= k < |rev| ==> m[rev[k]][rev[k - 1]] == 1 && par[rev[k - 1]] == rev[k])
    && (|rev| > 0 ==> rev[0] == t)
    && node == (if |rev| == 0 then t else par[rev[|rev| - 1]])
    && (node != -1 ==> 0 <= node < |m| && vis[node] == 1 && lvl[node] == lvl[t] - |rev|)
    && (node == -1 ==> |rev| > 0 && rev[|rev| - 1] == s)
  }

  lemma TraceStart(m: seq<seq<int>>, vis: seq<int>, par: seq<int>, lvl: seq<int>, s: int, t: int)
    requires Shape(m, vis, par, lvl) && 0 <= s < |m| && 0 <= t < |m| && vis[t] == 1
    ensures Trace(m, vis, par, lvl, s, t, [], t)
  {
  }

  /** One step up the tree: the walk reaches the parent of `node`. */
  lemma TraceStep(m: seq<seq<int>>, vis: seq<int>, par: seq<int>, lvl: seq<int>, s: int, t: int, rev: seq<int>, node: int)
    requires Shape(m, vis, par, lvl) && 0 <= s < |m| && 0 <= t < |m|
    requires ParentTree(m, vis, par, lvl, s)
    requires Trace(m, vis, par, lvl, s, t, rev, node) && node != -1
    ensures 0 <= node < |m|
    ensures Trace(m, vis, par, lvl, s, t, rev + [node], par[node])
  {
  }

  /** When the walk has passed the root, it has visited lvl[t] + 1 vertices,
      and read backwards they form a simple walk from s to t. */
  lemma TraceEnd(m: seq<seq<int>>, vis: seq<int>, par: seq<int>, lvl: seq<int>, s: int, t: int, rev: seq<int>)
    requires Shape(m, vis, par, lvl) && 0 <= s < |m| && 0 <= t < |m|
    requires ParentTree(m, vis, par, lvl, s)
    requires Trace(m, vis, par, lvl, s, t, rev, -1)
    ensures |rev| == lvl[t] + 1
    ensures WalkFromTo(m, Reversed(rev), s, t) && Distinct(Reversed(rev))
  {
    var p, n := Reversed(rev), |rev|;
    assert forall k :: 0 <= k < n ==> p[k] == rev[n - 1 - k] && lvl[p[k]] == lvl[t] - (n - 1 - k);
    assert forall k :: 1 <= k < n ==> m[p[k - 1]][p[k]] == m[rev[n - k]][rev[n - k - 1]];
  }
}
