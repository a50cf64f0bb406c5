/** The demonstration site `main` builds: ten pages in a binary-tree shape,
    and the visit orders both traversals produce on it from page 0. */
module SampleSite {
  import opened Marks
  import opened WebGraph
  import opened Bfs
  import opened Dfs

  /** The labels `main` gives pages 0 to 9. */
  function SampleUrls(): (urls: seq<string>)
    ensures |urls| == 10 && forall i :: 0 <= i < 10 ==> |urls[i]| < MAX_URL_LEN
  {
    ["http://example.com",
     "http://example.com/page1",
     "http://example.com/page2",
     "http://example.com/page1/subpage1",
     "http://example.com/page1/subpage2",
     "http://example.com/page2/subpage1",
     "http://example.com/page2/subpage2",
     "http://example.com/page1/subpage1/subsubpage1",
     "http://example.com/page1/subpage2/subsubpage1",
     "http://example.com/page2/subpage1/subsubpage1"]
  }

  /** The adjacency lists after `main`'s nine `addEdge` calls: each call puts
      its target in front, so a page's later link is listed first. */
  function SampleLinks(): (adj: seq<seq<int>>)
    ensures |adj| == 10 && WellFormed(adj)
  {
    [[2, 1], [4, 3], [6, 5], [7], [8], [9], [], [], [], []]
  }

  /** The graph-building part of `main`. */
  method BuildSample() returns (g: Graph)
    ensures g.Valid() && g.numPages == 10
    ensures g.Adj() == SampleLinks()
    ensures g.urls[..10] == SampleUrls()
  {
    g := new Graph(10);
    LabelPages(g, SampleUrls());
    LinkPages(g);
  }

  /** The ten `setPageUrl` calls of `main`, with `urls` the labels they pass. */
  method LabelPages(g: Graph, urls: seq<string>)
    requires g.Valid() && g.numPages == 10
    requires |urls| == 10 && forall i :: 0 <= i < 10 ==> |urls[i]| < MAX_URL_LEN
    modifies g.urls
    ensures g.Valid() && g.urls[..10] == urls
    ensures g.adjList[..] == old(g.adjList[..])
  {
    g.SetPageUrl(0, urls[0]);
    g.SetPageUrl(1, urls[1]);
    g.SetPageUrl(2, urls[2]);
    g.SetPageUrl(3, urls[3]);
    g.SetPageUrl(4, urls[4]);
    g.SetPageUrl(5, urls[5]);
    g.SetPageUrl(6, urls[6]);
    g.SetPageUrl(7, urls[7]);
    g.SetPageUrl(8, urls[8]);
    g.SetPageUrl(9, urls[9]);
    assert g.urls[0] == urls[0];
    assert g.urls[1] == urls[1];
    assert g.urls[2] == urls[2];
    assert g.urls[3] == urls[3];
    assert g.urls[4] == urls[4];
    assert g.urls[5] == urls[5];
    assert g.urls[6] == urls[6];
    assert g.urls[7] == urls[7];
    assert g.urls[8] == urls[8];
    assert g.urls[9] == urls[9];
    assert g.urls[..10] == urls;
  }

  /** The nine `addEdge` calls of `main`, on a graph of ten pages without links. */
  method LinkPages(g: Graph)
    requires g.Valid() && g.numPages == 10 && forall i :: 0 <= i < 10 ==> g.adjList[i] == []
    modifies g.adjList
    ensures g.Valid() && g.Adj() == SampleLinks()
    ensures g.urls[..] == old(g.urls[..])
  {
    g.AddEdge(0, 1);
    g.AddEdge(0, 2);
    g.AddEdge(1, 3);
    g.AddEdge(1, 4);
    g.AddEdge(2, 5);
    g.AddEdge(2, 6);
    g.AddEdge(3, 7);
    g.AddEdge(4, 8);
    g.AddEdge(5, 9);
    assert g.adjList[0] == [2, 1];
    assert g.adjList[1] == [4, 3];
    assert g.adjList[2] == [6, 5];
    assert g.adjList[3] == [7];
    assert g.adjList[4] == [8];
    assert g.adjList[5] == [9];
    assert g.adjList[6] == [];
    assert g.adjList[7] == [];
    assert g.adjList[8] == [];
    assert g.adjList[9] == [];
    assert g.adjList[..10] == SampleLinks();
  }

  /** The link structure `main` builds, stated entry by entry. */
  ghost predicate SampleShape(adj: seq<seq<int>>) {
    |adj| == 10 && WellFormed(adj) &&
    adj[0] == [2, 1] && adj[1] == [4, 3] && adj[2] == [6, 5] && adj[3] == [7] && adj[4] == [8] &&
    adj[5] == [9] && adj[6] == [] && adj[7] == [] && adj[8] == [] && adj[9] == []
  }

  lemma SampleLinksShape()
    ensures SampleShape(SampleLinks())
  {
  }

  /** A scan of a single unflagged page flags and queues it. */
  lemma ExpandOne(w: int, vis: seq<bool>, queue: seq<int>)
    requires 0 <= w < |vis| && !vis[w]
    ensures Expand([w], vis, queue) == (vis[w := true], queue + [w])
  {
    ExpandHead([w], vis, queue);
    assert [w][1..] == [];
  }

  /** A scan of two distinct unflagged pages flags and queues both, in order. */
  lemma ExpandTwo(w1: int, w2: int, vis: seq<bool>, queue: seq<int>)
    requires 0 <= w1 < |vis| && 0 <= w2 < |vis| && w1 != w2 && !vis[w1] && !vis[w2]
    ensures Expand([w1, w2], vis, queue) == (vis[w1 := true][w2 := true], queue + [w1, w2])
  {
    ExpandHead([w1, w2], vis, queue);
    assert [w1, w2][1..] == [w2];
    ExpandOne(w2, vis[w1 := true], queue + [w1]);
    assert queue + [w1] + [w2] == queue + [w1, w2];
  }

  /** The last three pages queued have no links, so they are printed in queue order. */
  lemma SampleBfsLeaves(adj: seq<seq<int>>, vis: seq<bool>)
    requires SampleShape(adj) && |vis| == 10
    ensures BfsRun(adj, [9, 8, 7], vis) == [9, 8, 7]
  {
    BfsRunCons(adj, 7, [], vis);
    assert [7] + [] == [7];
    BfsRunCons(adj, 8, [7], vis);
    assert [8] + [7] == [8, 7];
    BfsRunCons(adj, 9, [8, 7], vis);
    assert [9] + [8, 7] == [9, 8, 7];
  }

  /** The second level: pages 6, 5, 4 and 3 are printed and queue the third level. */
  lemma SampleBfsLevel2(adj: seq<seq<int>>, vis: seq<bool>)
    requires SampleShape(adj)
    requires |vis| == 10 && forall i :: 0 <= i < 10 ==> (vis[i] <==> i < 7)
    ensures BfsRun(adj, [6, 5, 4, 3], vis) == [6, 5, 4, 3, 9, 8, 7]
  {
    var v1 := vis[9 := true];
    var v2 := v1[8 := true];
    SampleBfsLeaves(adj, v2[7 := true]);
    ExpandOne(7, v2, [9, 8]);
    BfsRunCons(adj, 3, [9, 8], v2);
    assert [3] + [9, 8] == [3, 9, 8] && [9, 8] + [7] == [9, 8, 7];
    ExpandOne(8, v1, [3, 9]);
    BfsRunCons(adj, 4, [3, 9], v1);
    assert [4] + [3, 9] == [4, 3, 9] && [3, 9] + [8] == [3, 9, 8];
    ExpandOne(9, vis, [4, 3]);
    BfsRunCons(adj, 5, [4, 3], vis);
    assert [5] + [4, 3] == [5, 4, 3] && [4, 3] + [9] == [4, 3, 9];
    BfsRunCons(adj, 6, [5, 4, 3], vis);
    assert [6] + [5, 4, 3] == [6, 5, 4, 3];
  }

  /** The root and the first level: pages 0, 2 and 1 are printed and queue the second level. */
  lemma SampleBfsLevel1(adj: seq<seq<int>>, vis: seq<bool>)
    requires SampleShape(adj)
    requires |vis| == 10 && forall i :: 0 <= i < 10 ==> (vis[i] <==> i == 0)
    ensures BfsRun(adj, [0], vis) == [0, 2, 1, 6, 5, 4, 3, 9, 8, 7]
  {
    var v1 := vis[2 := true][1 := true];
    var v2 := v1[6 := true][5 := true];
    var v3 := v2[4 := true][3 := true];
    SampleBfsLevel2(adj, v3);
    ExpandTwo(4, 3, v2, [6, 5]);
    BfsRunCons(adj, 1, [6, 5], v2);
    assert [1] + [6, 5] == [1, 6, 5] && [6, 5] + [4, 3] == [6, 5, 4, 3];
    ExpandTwo(6, 5, v1, [1]);
    BfsRunCons(adj, 2, [1], v1);
    assert [2] + [1] == [2, 1] && [1] + [6, 5] == [1, 6, 5];
    ExpandTwo(2, 1, vis, []);
    BfsRunCons(adj, 0, [], vis);
    assert [0] + [] == [0] && [] + [2, 1] == [2, 1];
  }

  /** Breadth-first from page 0: level by level, newest link first. */
  lemma SampleBfs()
    ensures BfsOrder(SampleLinks(), 0) == [0, 2, 1, 6, 5, 4, 3, 9, 8, 7]
  {
    SampleLinksShape();
    SampleBfsLevel1(SampleLinks(), AllUnvisited(10)[0 := true]);
  }

  /** A visit of a page without links prints just that page. */
  lemma DfsLeaf(adj: seq<seq<int>>, v: int, vis: seq<bool>)
    requires WellFormed(adj) && |vis| == |adj| && 0 <= v < |adj| && adj[v] == []
    ensures DfsVisit(adj, v, vis) == ([v], vis[v := true])
  {
    assert [v] + [] == [v];
  }

  /** A scan of two pages, the first unflagged and the second still unflagged
      after the first one's visit, is those two visits in turn. */
  lemma DfsNeighborsTwo(adj: seq<seq<int>>, w1: int, w2: int, vis: seq<bool>)
    requires WellFormed(adj) && |vis| == |adj| && 0 <= w1 < |adj| && 0 <= w2 < |adj|
    requires !vis[w1] && !DfsVisit(adj, w1, vis).1[w2]
    ensures var a := DfsVisit(adj, w1, vis);
      var b := DfsVisit(adj, w2, a.1);
      DfsNeighbors(adj, [w1, w2], vis) == (a.0 + b.0, b.1)
  {
    var a := DfsVisit(adj, w1, vis);
    var b := DfsVisit(adj, w2, a.1);
    DfsNeighborsHead(adj, [w1, w2], vis);
    assert [w1, w2][1..] == [w2];
    DfsNeighborsHead(adj, [w2], a.1);
    assert [w2][1..] == [];
    assert b.0 + [] == b.0;
  }

  /** A page whose one link leads to a page without links prints both. */
  lemma SampleDfsChain(adj: seq<seq<int>>, v: int, w: int, vis: seq<bool>)
    requires WellFormed(adj) && |vis| == |adj| && 0 <= v < |adj| && 0 <= w < |adj| && v != w
    requires adj[v] == [w] && adj[w] == [] && !vis[w]
    ensures DfsVisit(adj, v, vis) == ([v, w], vis[v := true][w := true])
  {
    var v1 := vis[v := true];
    DfsLeaf(adj, w, v1);
    DfsNeighborsHead(adj, [w], v1);
    assert [w][1..] == [];
    assert [w] + [] == [w] && [v] + [w] == [v, w];
  }

  /** The visit of page 2 prints its subtree: 6, then 5 and its child 9. */
  lemma SampleDfsPage2(adj: seq<seq<int>>, vis: seq<bool>)
    requires SampleShape(adj) && |vis| == 10 && !vis[2] && !vis[6] && !vis[5] && !vis[9]
    ensures DfsVisit(adj, 2, vis) == ([2, 6, 5, 9], vis[2 := true][6 := true][5 := true][9 := true])
  {
    var v1 := vis[2 := true];
    DfsLeaf(adj, 6, v1);
    SampleDfsChain(adj, 5, 9, v1[6 := true]);
    DfsNeighborsTwo(adj, 6, 5, v1);
    assert [2] + ([6] + [5, 9]) == [2, 6, 5, 9];
  }

  /** The visit of page 1 prints its subtree: 4 and its child 8, then 3 and its child 7. */
  lemma SampleDfsPage1(adj: seq<seq<int>>, vis: seq<bool>)
    requires SampleShape(adj) && |vis| == 10
    requires !vis[1] && !vis[4] && !vis[8] && !vis[3] && !vis[7]
    ensures DfsVisit(adj, 1, vis) == ([1, 4, 8, 3, 7], vis[1 := true][4 := true][8 := true][3 := true][7 := true])
  {
    var v1 := vis[1 := true];
    SampleDfsChain(adj, 4, 8, v1);
    SampleDfsChain(adj, 3, 7, v1[4 := true][8 := true]);
    DfsNeighborsTwo(adj, 4, 3, v1);
    assert [1] + ([4, 8] + [3, 7]) == [1, 4, 8, 3, 7];
  }

  /** Depth-first from page 0 with a clear table: each subtree in full before the next. */
  lemma SampleDfs()
    ensures DfsOrder(SampleLinks(), 0) == [0, 2, 6, 5, 9, 1, 4, 8, 3, 7]
  {
    var adj := SampleLinks();
    SampleLinksShape();
    var v1 := AllUnvisited(10)[0 := true];
    SampleDfsPage2(adj, v1);
    var v2 := v1[2 := true][6 := true][5 := true][9 := true];
    SampleDfsPage1(adj, v2);
    DfsNeighborsTwo(adj, 2, 1, v1);
    assert [0] + ([2, 6, 5, 9] + [1, 4, 8, 3, 7]) == [0, 2, 6, 5, 9, 1, 4, 8, 3, 7];
  }

  /** The rest of `main`: choice 1 runs the breadth-first traversal from page 0,
      choice 2 the depth-first one with a fresh clear table, and any other
      choice prints no visits. */
  method SampleSession(choice: int) returns (order: seq<int>)
    ensures choice == 1 ==> order == [0, 2, 1, 6, 5, 4, 3, 9, 8, 7]
    ensures choice == 2 ==> order == [0, 2, 6, 5, 9, 1, 4, 8, 3, 7]
    ensures choice != 1 && choice != 2 ==> order == []
  {
    var graph := BuildSample();
    if choice == 1 {
      order := BfsTraversal(graph, 0);
      SampleBfs();
    } else if choice == 2 {
      var visited := new bool[MAX_PAGES](_ => false);
      assert visited[..graph.numPages] == AllUnvisited(10);
      order := DfsTraversal(graph, 0, visited);
      SampleDfs();
    } else {
      order := [];
    }
  }
}
