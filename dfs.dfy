/** Depth-first traversal: the specification as mutually recursive functions
    over the adjacency lists, what it visits, and the recursive method that
    shares one `visited` table across its calls. */
module Dfs {
  import opened Marks
  import opened WebGraph

  /** The visit of `v`: it is flagged and printed, then each page on its list
      that is still unflagged is visited in turn. The result is the pages
      printed and the flags afterwards. Every page printed after `v` was
      unflagged until then, so the printed count and the unflagged count stay
      in balance. */
  ghost function DfsVisit(adj: seq<seq<int>>, v: int, vis: seq<bool>): (r: (seq<int>, seq<bool>))
    requires WellFormed(adj) && |vis| == |adj| && 0 <= v < |adj|
    ensures |r.1| == |vis| && |r.0| > 0 && r.0[0] == v
    ensures |r.0| + CountUnvisited(r.1) == CountUnvisited(vis) + (if vis[v] then 1 else 0)
    decreases CountUnvisited(vis[v := true]), 1, 0
  {
    CountMarkOne(vis, v);
    var r := DfsNeighbors(adj, adj[v], vis[v := true]);
    ([v] + r.0, r.1)
  }

  /** The scan of one adjacency list from a visit: each entry still unflagged
      when the scan reaches it is visited. */
  ghost function DfsNeighbors(adj: seq<seq<int>>, nbrs: seq<int>, vis: seq<bool>): (r: (seq<int>, seq<bool>))
    requires WellFormed(adj) && |vis| == |adj|
    requires forall w :: w in nbrs ==> 0 <= w < |adj|
    ensures |r.1| == |vis|
    ensures |r.0| + CountUnvisited(r.1) == CountUnvisited(vis)
    decreases CountUnvisited(vis), 0, |nbrs|
  {
    if nbrs == [] then
      ([], vis)
    else
      var w := nbrs[0];
      assert w in nbrs && forall x :: x in nbrs[1..] ==> x in nbrs;
      if vis[w] then
        DfsNeighbors(adj, nbrs[1..], vis)
      else
        CountMarkOne(vis, w);
        var a := DfsVisit(adj, w, vis);
        var b := DfsNeighbors(adj, nbrs[1..], a.1);
        (a.0 + b.0, b.1)
  }

  /** The visit order of `dfsTraversal(graph, start, visited)` called with
      every flag clear, as `main` calls it. */
  ghost function DfsOrder(adj: seq<seq<int>>, start: int): (order: seq<int>)
    requires WellFormed(adj) && 0 <= start < |adj|
    ensures |order| > 0 && order[0] == start
  {
    DfsVisit(adj, start, AllUnvisited(|adj|)).0
  }

  /** What one visit does to the flags and the order: `v` comes first and is
      flagged; a flag is set afterwards exactly when it was set before or its
      page was printed; every page printed after `v` was unflagged on entry;
      no page is printed twice; and every link out of a printed page leads to
      a flagged page. */
  lemma {:induction false} DfsVisitFacts(adj: seq<seq<int>>, v: int, vis: seq<bool>)
    requires WellFormed(adj) && |vis| == |adj| && 0 <= v < |adj|
    ensures var r := DfsVisit(adj, v, vis);
      r.1[v] &&
      (forall i :: 0 <= i < |vis| ==> (r.1[i] <==> vis[i] || i in r.0)) &&
      (forall x :: x in r.0[1..] ==> 0 <= x < |adj| && !vis[x]) &&
      NoDup(r.0) &&
      (forall x :: x in r.0 ==> 0 <= x < |adj| && forall w :: w in adj[x] ==> r.1[w])
    decreases CountUnvisited(vis[v := true]), 1, 0
  {
    CountMarkOne(vis, v);
    var vis1 := vis[v := true];
    DfsNeighborsFacts(adj, adj[v], vis1);
    var r := DfsNeighbors(adj, adj[v], vis1);
    NoDupAppend([v], r.0);
    assert ([v] + r.0)[1..] == r.0;
  }

  /** What one scan does: the same as a visit, for the pages it prints, and
      every page on the scanned list ends up flagged. */
  lemma {:induction false} DfsNeighborsFacts(adj: seq<seq<int>>, nbrs: seq<int>, vis: seq<bool>)
    requires WellFormed(adj) && |vis| == |adj|
    requires forall w :: w in nbrs ==> 0 <= w < |adj|
    ensures var r := DfsNeighbors(adj, nbrs, vis);
      (forall i :: 0 <= i < |vis| ==> (r.1[i] <==> vis[i] || i in r.0)) &&
      (forall x :: x in r.0 ==> 0 <= x < |adj| && !vis[x]) &&
      NoDup(r.0) &&
      (forall x :: x in r.0 ==> forall w :: w in adj[x] ==> r.1[w]) &&
      (forall w :: w in nbrs ==> r.1[w])
    decreases CountUnvisited(vis), 0, |nbrs|
  {
    if nbrs != [] {
      var w := nbrs[0];
      assert w in nbrs && forall x :: x in nbrs[1..] ==> x in nbrs;
      if vis[w] {
        DfsNeighborsFacts(adj, nbrs[1..], vis);
      } else {
        CountMarkOne(vis, w);
        var a := DfsVisit(adj, w, vis);
        DfsVisitFacts(adj, w, vis);
        DfsNeighborsFacts(adj, nbrs[1..], a.1);
        var b := DfsNeighbors(adj, nbrs[1..], a.1);
        NoDupAppend(a.0, b.0);
      }
    }
  }

  /** A visit started at a page reachable from `s` prints only pages reachable from `s`. */
  lemma {:induction false} DfsVisitReachable(adj: seq<seq<int>>, s: int, v: int, vis: seq<bool>)
    requires WellFormed(adj) && |vis| == |adj| && 0 <= v < |adj| && Reachable(adj, s, v)
    ensures forall x :: x in DfsVisit(adj, v, vis).0 ==> Reachable(adj, s, x)
    decreases CountUnvisited(vis[v := true]), 1, 0
  {
    CountMarkOne(vis, v);
    forall w | w in adj[v]
      ensures Reachable(adj, s, w)
    {
      ReachableStep(adj, s, v, w);
    }
    DfsNeighborsReachable(adj, s, adj[v], vis[v := true]);
  }

  /** A scan of a list of pages reachable from `s` prints only pages reachable from `s`. */
  lemma {:induction false} DfsNeighborsReachable(adj: seq<seq<int>>, s: int, nbrs: seq<int>, vis: seq<bool>)
    requires WellFormed(adj) && |vis| == |adj|
    requires forall w :: w in nbrs ==> 0 <= w < |adj| && Reachable(adj, s, w)
    ensures forall x :: x in DfsNeighbors(adj, nbrs, vis).0 ==> Reachable(adj, s, x)
    decreases CountUnvisited(vis), 0, |nbrs|
  {
    if nbrs != [] {
      var w := nbrs[0];
      assert w in nbrs && forall x :: x in nbrs[1..] ==> x in nbrs;
      if vis[w] {
        DfsNeighborsReachable(adj, s, nbrs[1..], vis);
      } else {
        CountMarkOne(vis, w);
        var a := DfsVisit(adj, w, vis);
        DfsVisitReachable(adj, s, w, vis);
        DfsNeighborsReachable(adj, s, nbrs[1..], a.1);
      }
    }
  }

  /** Every page at the end of a path from `v` whose pages after `v` were all
      unflagged on entry is printed, and flagged, by the visit of `v`. */
  lemma {:induction false} DfsReachesUnvisited(adj: seq<seq<int>>, v: int, vis: seq<bool>, p: seq<int>)
    requires WellFormed(adj) && |vis| == |adj| && 0 <= v < |adj|
    requires IsPath(adj, p) && p[0] == v
    requires forall i :: 1 <= i < |p| ==> 0 <= p[i] < |vis| && !vis[p[i]]
    ensures var r := DfsVisit(adj, v, vis);
      p[|p| - 1] in r.0 && r.1[p[|p| - 1]]
    decreases |p|
  {
    var r := DfsVisit(adj, v, vis);
    DfsVisitFacts(adj, v, vis);
    if |p| > 1 {
      var q := p[..|p| - 1];
      DfsReachesUnvisited(adj, v, vis, q);
      var t := p[|p| - 1];
      assert t in adj[q[|q| - 1]] && !vis[t];
    }
  }

  /** The properties of a whole depth-first traversal from a clear table: it
      starts with `start`, prints no page twice, prints at most one line per
      page, and prints a page exactly when it is reachable from `start`. */
  lemma DfsOrderCorrect(adj: seq<seq<int>>, start: int)
    requires WellFormed(adj) && 0 <= start < |adj|
    ensures var order := DfsOrder(adj, start);
      |order| > 0 && order[0] == start && NoDup(order) && |order| <= |adj| &&
      (forall x :: x in order ==> 0 <= x < |adj|) &&
      (forall t :: 0 <= t < |adj| ==> (t in order <==> Reachable(adj, start, t)))
  {
    var vis := AllUnvisited(|adj|);
    CountAllUnvisited(|adj|);
    DfsVisitFacts(adj, start, vis);
    ReachableSelf(adj, start);
    DfsVisitReachable(adj, start, start, vis);
    forall t | 0 <= t < |adj| && Reachable(adj, start, t)
      ensures t in DfsOrder(adj, start)
    {
      var p :| IsPath(adj, p) && p[0] == start && p[|p| - 1] == t;
      PathInRange(adj, p);
      DfsReachesUnvisited(adj, start, vis, p);
    }
  }

  lemma AppendAssoc(a: seq<int>, b: seq<int>, c: seq<int>)
    ensures a + (b + c) == (a + b) + c
  {
  }

  /** One step of a scan, as the loop in `DfsTraversal` takes it. */
  lemma DfsNeighborsHead(adj: seq<seq<int>>, nbrs: seq<int>, vis: seq<bool>)
    requires WellFormed(adj) && |vis| == |adj| && nbrs != []
    requires forall w :: w in nbrs ==> 0 <= w < |adj|
    ensures 0 <= nbrs[0] < |adj| && forall w :: w in nbrs[1..] ==> 0 <= w < |adj|
    ensures DfsNeighbors(adj, nbrs, vis) ==
      if vis[nbrs[0]] then DfsNeighbors(adj, nbrs[1..], vis)
      else
        var a := DfsVisit(adj, nbrs[0], vis);
        var b := DfsNeighbors(adj, nbrs[1..], a.1);
        (a.0 + b.0, b.1)
  {
    assert nbrs[0] in nbrs && forall x :: x in nbrs[1..] ==> x in nbrs;
  }

  /** `dfsTraversal`: flags `start`, then recurses into each page on its list
      that is still unflagged, sharing the caller's table. Returns the pages in
      the order the C code prints them; the table ends as the specification
      says, and entries beyond the graph's pages are left alone. */
  method DfsTraversal(graph: Graph, start: int, visited: array<bool>) returns (order: seq<int>)
    requires graph.Valid()
    requires 0 <= start < graph.numPages <= visited.Length
    modifies visited
    ensures (order, visited[..graph.numPages]) == DfsVisit(graph.Adj(), start, old(visited[..graph.numPages]))
    ensures visited[graph.numPages..] == old(visited[graph.numPages..])
    decreases CountUnvisited(visited[..graph.numPages][start := true])
  {
    var n := graph.numPages;
    ghost var adj := graph.Adj();
    ghost var vis0 := visited[..n];
    visited[start] := true;
    assert visited[..n] == vis0[start := true];
    order := [start];
    var rest := graph.adjList[start];
    while rest != []
      invariant forall x :: x in rest ==> 0 <= x < n
      invariant visited[n..] == old(visited[n..])
      invariant CountUnvisited(visited[..n]) <= CountUnvisited(vis0[start := true])
      invariant DfsVisit(adj, start, vis0) ==
        (order + DfsNeighbors(adj, rest, visited[..n]).0, DfsNeighbors(adj, rest, visited[..n]).1)
      decreases |rest|
    {
      ghost var vis1 := visited[..n];
      DfsNeighborsHead(adj, rest, vis1);
      var adjIndex := rest[0];
      if !visited[adjIndex] {
        CountMarkOne(vis1, adjIndex);
        var sub := DfsTraversal(graph, adjIndex, visited);
        ghost var b := DfsNeighbors(adj, rest[1..], visited[..n]);
        AppendAssoc(order, sub, b.0);
        order := order + sub;
      }
      rest := rest[1..];
    }
    assert order + [] == order;
  }
}
