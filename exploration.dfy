/** The state of the recursive depth-first search, stated over values: the
    visited marks before and after a call, and the branch a successful call
    leaves on the path buffer. */
module Exploration {
  import opened Walks

  /** The branch a successful call from c leaves behind: a simple walk from
      c to t made only of vertices that were unvisited when the call began. */
  ghost predicate Branch(m: seq<seq<int>>, before: seq<int>, seg: seq<int>, c: int, t: int)
    requires IsSquare(m) && |before| == |m|
  {
    WalkFromTo(m, seg, c, t) && Distinct(seg) && forall k :: 0 <= k < |seg| ==> before[seg[k]] != 1
  }

  /** The call from c has scanned the candidates below i: every vertex it
      visited, other than c, has all its neighbours visited, and so have the
      neighbours of c below i. */
  predicate Exploring(m: seq<seq<int>>, before: seq<int>, vis: seq<int>, c: int, i: int)
    requires IsSquare(m) && |before| == |m| && |vis| == |m| && 0 <= c < |m|
  {
    && (forall v, w :: 0 <= v < |m| && 0 <= w < |m| && before[v] != 1 && vis[v] == 1 && v != c && m[v][w] == 1 ==> vis[w] == 1)
    && (forall w :: 0 <= w < i && w < |m| && m[c][w] == 1 ==> vis[w] == 1)
  }

  /** The target itself is a one-vertex branch. */
  lemma BranchHere(m: seq<seq<int>>, before: seq<int>, t: int)
    requires IsSquare(m) && |before| == |m| && 0 <= t < |m| && before[t] != 1
    ensures Branch(m, before, [t], t, t)
  {
  }

  /** A successful call from a neighbour i of c, made after c was marked,
      extends to a branch from c. */
  lemma BranchCons(m: seq<seq<int>>, before: seq<int>, mid: seq<int>, seg: seq<int>, c: int, i: int, t: int)
    requires IsSquare(m) && |before| == |m| && |mid| == |m| && 0 <= c < |m| && 0 <= i < |m|
    requires Grows(before, mid) && before[c] != 1 && mid[c] == 1 && m[c][i] == 1
    requires Branch(m, mid, seg, i, t)
    ensures Branch(m, before, [c] + seg, c, t)
  {
    var seg' := [c] + seg;
    assert forall k :: 1 <= k < |seg'| ==> seg'[k] == seg[k - 1];
    assert forall k :: 0 <= k < |seg| ==> seg[k] != c && before[seg[k]] != 1;
  }

  /** A successful call from c, read off the path buffer: the entries
      a .. b - 1 are the branch from c, with t + 1 on top. */
  ghost predicate Found(m: seq<seq<int>>, before: seq<int>, buf: seq<int>, a: int, b: int, c: int, t: int)
    requires IsSquare(m) && |before| == |m|
  {
    0 <= a < b <= |buf| && buf[b - 1] == t + 1 && Branch(m, before, ZeroBased(buf[a..b]), c, t)
  }

  /** The same, read off the path buffer: a successful call from i pushed
      its branch right after the entry c + 1 of the caller. */
  lemma BranchExtend(m: seq<seq<int>>, before: seq<int>, mid: seq<int>, buf: seq<int>, a: int, b: int, c: int, i: int, t: int)
    requires IsSquare(m) && |before| == |m| && |mid| == |m| && 0 <= c < |m| && 0 <= i < |m|
    requires Grows(before, mid) && before[c] != 1 && mid[c] == 1 && m[c][i] == 1
    requires 0 <= a < b <= |buf| && buf[a] == c + 1 && buf[b - 1] == t + 1
    requires Branch(m, mid, ZeroBased(buf[a + 1..b]), i, t)
    ensures Found(m, before, buf, a, b, c, t)
  {
    BranchCons(m, before, mid, ZeroBased(buf[a + 1..b]), c, i, t);
    assert ZeroBased(buf[a..b]) == [c] + ZeroBased(buf[a + 1..b]);
  }

  /** A scan starts with nothing to show. */
  lemma ExploreStart(m: seq<seq<int>>, before: seq<int>, vis: seq<int>, c: int)
    requires IsSquare(m) && |before| == |m| && 0 <= c < |m| && vis == before[c := 1]
    ensures Exploring(m, before, vis, c, 0)
  {
  }

  /** A candidate that is no neighbour of c, or is already visited, is passed over. */
  lemma ExploreSkip(m: seq<seq<int>>, before: seq<int>, vis: seq<int>, c: int, i: int)
    requires IsSquare(m) && |before| == |m| && |vis| == |m| && 0 <= c < |m| && 0 <= i < |m|
    requires Exploring(m, before, vis, c, i) && (m[c][i] != 1 || vis[i] == 1)
    ensures Exploring(m, before, vis, c, i + 1)
  {
  }

  /** After a call from the neighbour i that failed, everything it visited
      is closed, so the scan moves past i. */
  lemma ExploreChildFailed(m: seq<seq<int>>, before: seq<int>, mid: seq<int>, after: seq<int>, c: int, i: int)
    requires IsSquare(m) && |before| == |m| && |mid| == |m| && |after| == |m| && 0 <= c < |m| && 0 <= i < |m|
    requires Exploring(m, before, mid, c, i) && Grows(mid, after) && NewlyClosed(m, mid, after) && after[i] == 1
    ensures Exploring(m, before, after, c, i + 1)
  {
    forall v, w | 0 <= v < |m| && 0 <= w < |m| && before[v] != 1 && after[v] == 1 && v != c && m[v][w] == 1
      ensures after[w] == 1
    {
      if mid[v] == 1 {
        assert mid[w] == 1;
      }
    }
  }

  /** Once every candidate is scanned, all that the call visited is closed. */
  lemma ExploreDone(m: seq<seq<int>>, before: seq<int>, vis: seq<int>, c: int)
    requires IsSquare(m) && |before| == |m| && |vis| == |m| && 0 <= c < |m|
    requires Exploring(m, before, vis, c, |m|)
    ensures NewlyClosed(m, before, vis)
  {
  }

  /** What a failed search from scratch leaves: a closed set of visited
      vertices. */
  lemma ClosedFromScratch(m: seq<seq<int>>, before: seq<int>, vis: seq<int>)
    requires IsSquare(m) && |before| == |m| && |vis| == |m|
    requires forall k :: 0 <= k < |m| ==> before[k] == 0
    requires NewlyClosed(m, before, vis)
    ensures Closed(m, vis)
  {
  }
}
