/** Adjacency matrices, walks and reachability: the vocabulary in which the
    searches of the Graph class are specified. Vertices are 0-based here. */
module Walks {

  /** `m` is a |m|-by-|m| matrix. */
  predicate IsSquare(m: seq<seq<int>>) {
    forall i :: 0 <= i < |m| ==> |m[i]| == |m|
  }

  /** The invariant of an undirected graph's adjacency matrix: square,
      symmetric and holding only 0 and 1. */
  predicate Undirected(m: seq<seq<int>>) {
    && IsSquare(m)
    && (forall i, j :: 0 <= i < |m| && 0 <= j < |m| ==> m[i][j] == m[j][i])
    && (forall i, j :: 0 <= i < |m| && 0 <= j < |m| ==> m[i][j] == 0 || m[i][j] == 1)
  }

  /** The matrix of the graph on n vertices with no edges. */
  function Empty(n: nat): (m: seq<seq<int>>)
    ensures |m| == n && Undirected(m)
    ensures forall i, j :: 0 <= i < n && 0 <= j < n ==> m[i][j] == 0
  {
    seq(n, _ => seq(n, _ => 0))
  }

  /** The matrix after inserting the undirected edge {a, b}. */
  function WithEdge(m: seq<seq<int>>, a: int, b: int): (r: seq<seq<int>>)
    requires IsSquare(m) && 0 <= a < |m| && 0 <= b < |m|
    ensures IsSquare(r) && |r| == |m|
    ensures forall i, j :: 0 <= i < |m| && 0 <= j < |m| ==>
      r[i][j] == if (i == a && j == b) || (i == b && j == a) then 1 else m[i][j]
  {
    var m1 := m[a := m[a][b := 1]];
    m1[b := m1[b][a := 1]]
  }

  /** Two square matrices of the same size that agree cell by cell are equal. */
  lemma SameMatrix(x: seq<seq<int>>, y: seq<seq<int>>)
    requires IsSquare(x) && IsSquare(y) && |x| == |y|
    requires forall i, j :: 0 <= i < |x| && 0 <= j < |x| ==> x[i][j] == y[i][j]
    ensures x == y
  {
    forall i | 0 <= i < |x|
      ensures x[i] == y[i]
    {
      assert forall j :: 0 <= j < |x| ==> x[i][j] == y[i][j];
    }
  }

  /** Inserting an edge keeps a matrix undirected, and the edge is then
      present in both directions. */
  lemma WithEdgeUndirected(m: seq<seq<int>>, a: int, b: int)
    requires Undirected(m) && 0 <= a < |m| && 0 <= b < |m|
    ensures Undirected(WithEdge(m, a, b))
    ensures WithEdge(m, a, b)[a][b] == 1 && WithEdge(m, a, b)[b][a] == 1
  {
  }

  /** Inserting an edge that is already there changes nothing. */
  lemma WithEdgeIdempotent(m: seq<seq<int>>, a: int, b: int)
    requires IsSquare(m) && 0 <= a < |m| && 0 <= b < |m|
    ensures WithEdge(WithEdge(m, a, b), a, b) == WithEdge(m, a, b)
  {
    SameMatrix(WithEdge(WithEdge(m, a, b), a, b), WithEdge(m, a, b));
  }

  /** The order of the two endpoints does not matter. */
  lemma WithEdgeSwap(m: seq<seq<int>>, a: int, b: int)
    requires IsSquare(m) && 0 <= a < |m| && 0 <= b < |m|
    ensures WithEdge(m, b, a) == WithEdge(m, a, b)
  {
    SameMatrix(WithEdge(m, b, a), WithEdge(m, a, b));
  }

  /** A walk: a non-empty sequence of vertices, each joined to the next by
      an edge (read in the direction the searches scan the matrix). */
  predicate IsWalk(m: seq<seq<int>>, p: seq<int>)
    requires IsSquare(m)
  {
    && |p| > 0
    && (forall k :: 0 <= k < |p| ==> 0 <= p[k] < |m|)
    && (forall k :: 1 <= k < |p| ==> m[p[k - 1]][p[k]] == 1)
  }

  predicate WalkFromTo(m: seq<seq<int>>, p: seq<int>, s: int, t: int)
    requires IsSquare(m)
  {
    IsWalk(m, p) && p[0] == s && p[|p| - 1] == t
  }

  ghost predicate Reachable(m: seq<seq<int>>, s: int, t: int)
    requires IsSquare(m)
  {
    exists p :: WalkFromTo(m, p, s, t)
  }

  /** A walk from s to t with no fewer vertices than any other such walk. */
  ghost predicate IsShortestWalk(m: seq<seq<int>>, p: seq<int>, s: int, t: int)
    requires IsSquare(m)
  {
    WalkFromTo(m, p, s, t) && forall q :: WalkFromTo(m, q, s, t) ==> |p| <= |q|
  }

  /** No vertex occurs twice: together with IsWalk, a simple path. */
  predicate Distinct(p: seq<int>) {
    forall i, j :: 0 <= i < j < |p| ==> p[i] != p[j]
  }

  /** The 0-based vertices named by a sequence of 1-based identifiers. */
  function ZeroBased(ids: seq<int>): (p: seq<int>)
    ensures |p| == |ids|
  {
    seq(|ids|, k requires 0 <= k < |ids| => ids[k] - 1)
  }

  /** The number of entries equal to 1 (the number of visited vertices). */
  function Ones(s: seq<int>): (c: nat)
    ensures c <= |s|
  {
    if s == [] then 0 else (if s[0] == 1 then 1 else 0) + Ones(s[1..])
  }

  lemma {:induction false} OnesZero(s: seq<int>)
    requires forall k :: 0 <= k < |s| ==> s[k] == 0
    ensures Ones(s) == 0
  {
    if s != [] {
      OnesZero(s[1..]);
    }
  }

  /** Marking one unmarked entry raises the count by exactly one. */
  lemma {:induction false} OnesSet(s: seq<int>, k: int)
    requires 0 <= k < |s| && s[k] != 1
    ensures Ones(s[k := 1]) == Ones(s) + 1
  {
    if k > 0 {
      assert s[k := 1][1..] == s[1..][k - 1 := 1];
      OnesSet(s[1..], k - 1);
    } else {
      assert s[k := 1][1..] == s[1..];
    }
  }

  /** Every entry marked in `a` is marked in `b`. */
  predicate Grows(a: seq<int>, b: seq<int>) {
    |a| == |b| && forall k :: 0 <= k < |a| && a[k] == 1 ==> b[k] == 1
  }

  lemma GrowsTrans(a: seq<int>, b: seq<int>, c: seq<int>)
    requires Grows(a, b) && Grows(b, c)
    ensures Grows(a, c)
  {
  }

  lemma {:induction false} OnesGrow(a: seq<int>, b: seq<int>)
    requires Grows(a, b)
    ensures Ones(a) <= Ones(b)
  {
    if a != [] {
      OnesGrow(a[1..], b[1..]);
    }
  }

  /** Every edge out of a marked vertex leads to a marked vertex. */
  predicate Closed(m: seq<seq<int>>, vis: seq<int>)
    requires IsSquare(m) && |vis| == |m|
  {
    forall v, w :: 0 <= v < |m| && 0 <= w < |m| && vis[v] == 1 && m[v][w] == 1 ==> vis[w] == 1
  }

  /** Every edge out of a vertex marked in `after` but not in `before`
      leads to a vertex marked in `after`. */
  predicate NewlyClosed(m: seq<seq<int>>, before: seq<int>, after: seq<int>)
    requires IsSquare(m) && |before| == |m| && |after| == |m|
  {
    forall v, w :: 0 <= v < |m| && 0 <= w < |m| && before[v] != 1 && after[v] == 1 && m[v][w] == 1 ==> after[w] == 1
  }

  /** A walk that starts inside a closed set of vertices never leaves it:
      a vertex outside the set is unreachable from inside. */
  lemma {:induction false} ClosedContainsWalk(m: seq<seq<int>>, vis: seq<int>, p: seq<int>)
    requires IsSquare(m) && |vis| == |m| && Closed(m, vis)
    requires IsWalk(m, p) && vis[p[0]] == 1
    ensures vis[p[|p| - 1]] == 1
  {
    if |p| > 1 {
      ClosedContainsWalk(m, vis, p[..|p| - 1]);
    }
  }
}
