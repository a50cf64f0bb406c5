/** Breadth-first traversal: the specification as functions over the
    adjacency lists, what it visits, and the queue-driven method. */
module Bfs {
  import opened Marks
  import opened WebGraph
  import opened PageQueue

  /** One scan of a dequeued page's adjacency list: each neighbour not yet
      flagged is flagged and appended to the queue, in list order. The result
      is the new flags and the new queue. */
  ghost function Expand(nbrs: seq<int>, vis: seq<bool>, queue: seq<int>): (r: (seq<bool>, seq<int>))
    requires forall w :: w in nbrs ==> 0 <= w < |vis|
    ensures |r.0| == |vis|
    decreases |nbrs|
  {
    if nbrs == [] then
      (vis, queue)
    else
      var w := nbrs[0];
      assert w in nbrs && forall x :: x in nbrs[1..] ==> x in nbrs;
      if vis[w] then
        Expand(nbrs[1..], vis, queue)
      else
        Expand(nbrs[1..], vis[w := true], queue + [w])
  }

  /** A scan keeps the queue it started from as a prefix, appends only
      neighbours, and every page it appends it also flags, so flags plus queue
      length stay in balance. */
  lemma {:induction false} ExpandBasics(nbrs: seq<int>, vis: seq<bool>, queue: seq<int>)
    requires forall w :: w in nbrs ==> 0 <= w < |vis|
    ensures var r := Expand(nbrs, vis, queue);
      |queue| <= |r.1| && r.1[..|queue|] == queue &&
      (forall x :: x in r.1 ==> x in queue || x in nbrs) &&
      CountUnvisited(r.0) + |r.1| == CountUnvisited(vis) + |queue|
    decreases |nbrs|
  {
    if nbrs != [] {
      var w := nbrs[0];
      assert w in nbrs && forall x :: x in nbrs[1..] ==> x in nbrs;
      if vis[w] {
        ExpandBasics(nbrs[1..], vis, queue);
      } else {
        CountMarkOne(vis, w);
        ExpandBasics(nbrs[1..], vis[w := true], queue + [w]);
        var r := Expand(nbrs[1..], vis[w := true], queue + [w]);
        assert r.1[..|queue| + 1] == queue + [w];
        assert forall x :: x in r.1 ==> x in queue + [w] || x in nbrs[1..];
      }
    }
  }

  /** One step of a scan, as the loop in `BfsTraversal` takes it. */
  lemma ExpandHead(nbrs: seq<int>, vis: seq<bool>, queue: seq<int>)
    requires nbrs != [] && forall w :: w in nbrs ==> 0 <= w < |vis|
    ensures 0 <= nbrs[0] < |vis| && forall w :: w in nbrs[1..] ==> 0 <= w < |vis|
    ensures Expand(nbrs, vis, queue) ==
      if vis[nbrs[0]] then Expand(nbrs[1..], vis, queue)
      else Expand(nbrs[1..], vis[nbrs[0] := true], queue + [nbrs[0]])
  {
    assert nbrs[0] in nbrs && forall x :: x in nbrs[1..] ==> x in nbrs;
  }

  /** The pages one scan appends are neighbours that were unflagged, each
      appended once. */
  lemma {:induction false} ExpandAdded(nbrs: seq<int>, vis: seq<bool>, queue: seq<int>)
    requires forall w :: w in nbrs ==> 0 <= w < |vis|
    ensures var r := Expand(nbrs, vis, queue);
      |queue| <= |r.1| &&
      var added := r.1[|queue|..];
      (forall x :: x in added ==> x in nbrs && !vis[x]) && NoDup(added)
    decreases |nbrs|
  {
    ExpandBasics(nbrs, vis, queue);
    if nbrs != [] {
      var w := nbrs[0];
      assert w in nbrs && forall x :: x in nbrs[1..] ==> x in nbrs;
      if vis[w] {
        ExpandAdded(nbrs[1..], vis, queue);
      } else {
        ExpandBasics(nbrs[1..], vis[w := true], queue + [w]);
        ExpandAdded(nbrs[1..], vis[w := true], queue + [w]);
        var r := Expand(nbrs[1..], vis[w := true], queue + [w]);
        assert r.1[..|queue| + 1] == queue + [w];
        assert r.1[|queue|] == w;
        assert r.1[|queue|..] == [w] + r.1[|queue| + 1..];
        NoDupAppend([w], r.1[|queue| + 1..]);
      }
    }
  }

  /** After a scan the flags are exactly the old ones plus the appended pages,
      and every neighbour is flagged. */
  lemma {:induction false} ExpandFlags(nbrs: seq<int>, vis: seq<bool>, queue: seq<int>)
    requires forall w :: w in nbrs ==> 0 <= w < |vis|
    ensures var r := Expand(nbrs, vis, queue);
      |queue| <= |r.1| &&
      (forall i :: 0 <= i < |vis| ==> (r.0[i] <==> vis[i] || i in r.1[|queue|..])) &&
      (forall w :: w in nbrs ==> r.0[w])
    decreases |nbrs|
  {
    ExpandBasics(nbrs, vis, queue);
    if nbrs != [] {
      var w := nbrs[0];
      assert w in nbrs && forall x :: x in nbrs[1..] ==> x in nbrs;
      if vis[w] {
        ExpandFlags(nbrs[1..], vis, queue);
      } else {
        ExpandBasics(nbrs[1..], vis[w := true], queue + [w]);
        ExpandFlags(nbrs[1..], vis[w := true], queue + [w]);
        var r := Expand(nbrs[1..], vis[w := true], queue + [w]);
        assert r.1[..|queue| + 1] == queue + [w];
        assert r.1[|queue|] == w;
        assert r.1[|queue|..] == [w] + r.1[|queue| + 1..];
      }
    }
  }

  /** The pages printed while draining `queue`, given the current flags. The
      queue is first in, first out: the pages already queued are printed
      first, in queue order. */
  ghost function BfsRun(adj: seq<seq<int>>, queue: seq<int>, vis: seq<bool>): (order: seq<int>)
    requires WellFormed(adj) && |vis| == |adj|
    requires forall x :: x in queue ==> 0 <= x < |adj|
    ensures |queue| <= |order| && order[..|queue|] == queue
    decreases CountUnvisited(vis) + |queue|
  {
    if queue == [] then
      []
    else
      var p := queue[0];
      assert p in queue && forall x :: x in queue[1..] ==> x in queue;
      var r := Expand(adj[p], vis, queue[1..]);
      ExpandBasics(adj[p], vis, queue[1..]);
      var tail := BfsRun(adj, r.1, r.0);
      assert tail[..|queue| - 1] == r.1[..|queue| - 1] == queue[1..];
      [p] + tail
  }

  /** The visit order of `bfsTraversal(graph, start)`: `start` flagged and queued first. */
  ghost function BfsOrder(adj: seq<seq<int>>, start: int): (order: seq<int>)
    requires WellFormed(adj) && 0 <= start < |adj|
    ensures |order| > 0 && order[0] == start
  {
    BfsRun(adj, [start], AllUnvisited(|adj|)[start := true])
  }

  /** Draining a queue whose head is `p`: `p` is printed first, then the rest
      of the run from its scan. */
  lemma BfsRunCons(adj: seq<seq<int>>, p: int, rest: seq<int>, vis: seq<bool>)
    requires WellFormed(adj) && |vis| == |adj| && 0 <= p < |adj|
    requires forall x :: x in rest ==> 0 <= x < |adj|
    ensures forall x :: x in adj[p] ==> 0 <= x < |vis|
    ensures var r := Expand(adj[p], vis, rest);
      (forall x :: x in r.1 ==> 0 <= x < |adj|) &&
      BfsRun(adj, [p] + rest, vis) == [p] + BfsRun(adj, r.1, r.0)
  {
    assert ([p] + rest)[0] == p && ([p] + rest)[1..] == rest;
    assert forall x :: x in ([p] + rest)[1..] ==> x in rest;
    ExpandBasics(adj[p], vis, rest);
  }

  /** What the loop of `bfsTraversal` keeps: the queue holds pages of the
      graph, and the pages printed so far followed by the rest of the run are
      the whole traversal. */
  ghost predicate BfsLoopInv(adj: seq<seq<int>>, start: int, order: seq<int>, queue: seq<int>, vis: seq<bool>) {
    WellFormed(adj) && 0 <= start < |adj| && |vis| == |adj| &&
    (forall x :: x in queue ==> 0 <= x < |adj|) &&
    order + BfsRun(adj, queue, vis) == BfsOrder(adj, start)
  }

  /** One turn of the traversal loop: the head is printed and its list
      scanned; the loop invariant holds again, strictly closer to the end. */
  lemma BfsLoopStep(adj: seq<seq<int>>, start: int, order: seq<int>, queue: seq<int>, vis: seq<bool>)
    requires BfsLoopInv(adj, start, order, queue, vis) && queue != []
    ensures 0 <= queue[0] < |adj| && forall x :: x in queue[1..] ==> 0 <= x < |adj|
    ensures var r := Expand(adj[queue[0]], vis, queue[1..]);
      BfsLoopInv(adj, start, order + [queue[0]], r.1, r.0) &&
      CountUnvisited(r.0) + |r.1| < CountUnvisited(vis) + |queue|
  {
    assert queue[0] in queue && forall x :: x in queue[1..] ==> x in queue;
    var r := Expand(adj[queue[0]], vis, queue[1..]);
    ExpandBasics(adj[queue[0]], vis, queue[1..]);
    assert BfsRun(adj, queue, vis) == [queue[0]] + BfsRun(adj, r.1, r.0);
    assert (order + [queue[0]]) + BfsRun(adj, r.1, r.0) == order + BfsRun(adj, queue, vis);
  }

  /** What holds of the pages seen so far (printed or queued) and the flags:
      every one is reachable from `start`, none is seen twice, `start` was seen
      first, a page is flagged exactly when it was seen, and seen plus
      unflagged pages make up the graph. */
  ghost predicate SeenInv(adj: seq<seq<int>>, start: int, seen: seq<int>, vis: seq<bool>)
    requires |vis| == |adj|
  {
    (forall x :: x in seen ==> 0 <= x < |adj| && Reachable(adj, start, x)) &&
    NoDup(seen) && |seen| > 0 && seen[0] == start &&
    (forall i :: 0 <= i < |adj| ==> (vis[i] <==> i in seen)) &&
    |seen| + CountUnvisited(vis) == |adj|
  }

  /** Every link out of a printed page leads to a flagged page. */
  ghost predicate Closed(adj: seq<seq<int>>, done: seq<int>, vis: seq<bool>)
    requires WellFormed(adj) && |vis| == |adj|
  {
    forall x :: x in done ==> 0 <= x < |adj| && forall w :: w in adj[x] ==> vis[w]
  }

  /** What holds of the pages already printed (`done`), the queue and the flags
      between two iterations of the traversal loop. */
  ghost predicate BfsInv(adj: seq<seq<int>>, start: int, done: seq<int>, queue: seq<int>, vis: seq<bool>) {
    WellFormed(adj) && |vis| == |adj| && 0 <= start < |adj| &&
    SeenInv(adj, start, done + queue, vis) && Closed(adj, done, vis)
  }

  /** Moving the queue's head to the printed pages leaves the pages seen unchanged. */
  lemma MoveHead(done: seq<int>, queue: seq<int>, added: seq<int>)
    requires queue != []
    ensures (done + [queue[0]]) + (queue[1..] + added) == (done + queue) + added
  {
    assert queue == [queue[0]] + queue[1..];
  }

  /** Appending unflagged neighbours of a seen page, and flagging just them, keeps `SeenInv`. */
  lemma SeenGrow(adj: seq<seq<int>>, start: int, seen: seq<int>, vis: seq<bool>, p: int, added: seq<int>, vis': seq<bool>)
    requires WellFormed(adj) && |vis| == |adj| && |vis'| == |adj|
    requires SeenInv(adj, start, seen, vis) && p in seen
    requires NoDup(added) && forall x :: x in added ==> x in adj[p] && !vis[x]
    requires forall i :: 0 <= i < |adj| ==> (vis'[i] <==> vis[i] || i in added)
    requires CountUnvisited(vis') + |added| == CountUnvisited(vis)
    ensures SeenInv(adj, start, seen + added, vis')
  {
    NoDupAppend(seen, added);
    forall x | x in added
      ensures Reachable(adj, start, x)
    {
      ReachableStep(adj, start, p, x);
    }
    assert forall x :: x in seen + added ==> x in seen || x in added;
  }

  /** Printing `p` once all its links are flagged keeps `Closed`, as flags only get set. */
  lemma ClosedGrow(adj: seq<seq<int>>, done: seq<int>, vis: seq<bool>, p: int, vis': seq<bool>)
    requires WellFormed(adj) && |vis| == |adj| && |vis'| == |adj| && 0 <= p < |adj|
    requires Closed(adj, done, vis)
    requires forall i :: 0 <= i < |adj| && vis[i] ==> vis'[i]
    requires forall w :: w in adj[p] ==> vis'[w]
    ensures Closed(adj, done + [p], vis')
  {
    assert forall x :: x in done + [p] ==> x in done || x == p;
  }

  /** One loop iteration keeps the invariant. */
  lemma BfsStep(adj: seq<seq<int>>, start: int, done: seq<int>, queue: seq<int>, vis: seq<bool>)
    requires BfsInv(adj, start, done, queue, vis) && queue != []
    ensures 0 <= queue[0] < |adj| && forall x :: x in queue[1..] ==> 0 <= x < |adj|
    ensures var r := Expand(adj[queue[0]], vis, queue[1..]);
      BfsInv(adj, start, done + [queue[0]], r.1, r.0)
  {
    var p := queue[0];
    var seen := done + queue;
    assert p in seen && forall x :: x in queue ==> x in seen;
    assert forall x :: x in queue[1..] ==> x in queue;
    var r := Expand(adj[p], vis, queue[1..]);
    ExpandBasics(adj[p], vis, queue[1..]);
    ExpandAdded(adj[p], vis, queue[1..]);
    ExpandFlags(adj[p], vis, queue[1..]);
    var added := r.1[|queue| - 1..];
    assert r.1 == r.1[..|queue| - 1] + added;
    MoveHead(done, queue, added);
    SeenGrow(adj, start, seen, vis, p, added, r.0);
    ClosedGrow(adj, done, vis, p, r.0);
  }

  /** Draining the queue from any state that keeps the invariant yields an order
      that never repeats a page, starts with `start`, fits in the graph, and holds
      exactly the pages reachable from `start`. */
  lemma {:induction false} BfsRunFromInv(adj: seq<seq<int>>, start: int, done: seq<int>, queue: seq<int>, vis: seq<bool>)
    requires BfsInv(adj, start, done, queue, vis)
    ensures forall x :: x in queue ==> 0 <= x < |adj|
    ensures var order := done + BfsRun(adj, queue, vis);
      NoDup(order) && |order| <= |adj| && |order| > 0 && order[0] == start &&
      (forall x :: x in order ==> 0 <= x < |adj| && Reachable(adj, start, x)) &&
      (forall t :: 0 <= t < |adj| && Reachable(adj, start, t) ==> t in order)
    decreases CountUnvisited(vis) + |queue|
  {
    assert forall x :: x in queue ==> x in done + queue;
    if queue == [] {
      assert done + queue == done;
      forall t | 0 <= t < |adj| && Reachable(adj, start, t)
        ensures t in done
      {
        var p :| IsPath(adj, p) && p[0] == start && p[|p| - 1] == t;
        ClosedHoldsPath(adj, done, p);
      }
    } else {
      var p := queue[0];
      BfsStep(adj, start, done, queue, vis);
      var r := Expand(adj[p], vis, queue[1..]);
      BfsRunFromInv(adj, start, done + [p], r.1, r.0);
      assert done + BfsRun(adj, queue, vis) == (done + [p]) + BfsRun(adj, r.1, r.0);
    }
  }

  /** The properties of a whole breadth-first traversal: it starts with `start`,
      prints no page twice, prints at most one line per page, and prints a page
      exactly when it is reachable from `start`. */
  lemma BfsOrderCorrect(adj: seq<seq<int>>, start: int)
    requires WellFormed(adj) && 0 <= start < |adj|
    ensures var order := BfsOrder(adj, start);
      |order| > 0 && order[0] == start && NoDup(order) && |order| <= |adj| &&
      (forall x :: x in order ==> 0 <= x < |adj|) &&
      (forall t :: 0 <= t < |adj| ==> (t in order <==> Reachable(adj, start, t)))
  {
    var vis := AllUnvisited(|adj|)[start := true];
    assert BfsInv(adj, start, [], [start], vis) by {
      CountAllUnvisited(|adj|);
      CountMarkOne(AllUnvisited(|adj|), start);
      ReachableSelf(adj, start);
      assert [] + [start] == [start];
    }
    BfsRunFromInv(adj, start, [], [start], vis);
    assert [] + BfsOrder(adj, start) == BfsOrder(adj, start);
  }

  /** The inner loop of `bfsTraversal`: walks one adjacency list, flagging and
      queueing every neighbour not yet flagged. */
  method ScanLinks(links: seq<int>, visited: array<bool>, q: Queue, ghost n: nat)
    requires q.Valid()
    requires n <= visited.Length && forall x :: x in links ==> 0 <= x < n
    modifies visited, q, q.Repr
    ensures q.Valid() && fresh(q.Repr - old(q.Repr))
    ensures (visited[..n], q.contents) == Expand(links, old(visited[..n]), old(q.contents))
    ensures visited[n..] == old(visited[n..])
  {
    var rest := links;
    while rest != []
      invariant q.Valid() && fresh(q.Repr - old(q.Repr))
      invariant forall x :: x in rest ==> 0 <= x < n
      invariant Expand(rest, visited[..n], q.contents) == Expand(links, old(visited[..n]), old(q.contents))
      invariant visited[n..] == old(visited[n..])
      decreases |rest|
    {
      ghost var vis1, queue1 := visited[..n], q.contents;
      ExpandHead(rest, vis1, queue1);
      var adjIndex := rest[0];
      if !visited[adjIndex] {
        visited[adjIndex] := true;
        q.Enqueue(adjIndex);
        assert visited[..n] == vis1[adjIndex := true];
      }
      rest := rest[1..];
    }
  }

  /** One turn of the loop of `bfsTraversal`: the head of the queue is taken
      off and its adjacency list scanned. */
  method VisitHead(graph: Graph, q: Queue, visited: array<bool>) returns (pageIndex: int)
    requires graph.Valid() && graph.numPages <= visited.Length
    requires q.Valid() && q.contents != []
    requires forall x :: x in q.contents ==> 0 <= x < graph.numPages
    modifies visited, q, q.Repr
    ensures q.Valid() && fresh(q.Repr - old(q.Repr))
    ensures pageIndex == old(q.contents)[0] && 0 <= pageIndex < graph.numPages
    ensures (visited[..graph.numPages], q.contents) ==
      Expand(graph.Adj()[pageIndex], old(visited[..graph.numPages]), old(q.contents)[1..])
    ensures visited[graph.numPages..] == old(visited[graph.numPages..])
  {
    assert q.contents[0] in q.contents;
    pageIndex := q.Dequeue();
    ScanLinks(graph.adjList[pageIndex], visited, q, graph.numPages);
  }

  /** `bfsTraversal`: returns the pages in the order the C code prints them. */
  method BfsTraversal(graph: Graph, start: int) returns (order: seq<int>)
    requires graph.Valid()
    requires 0 <= start < graph.numPages
    ensures order == BfsOrder(graph.Adj(), start)
  {
    var n := graph.numPages;
    ghost var adj := graph.Adj();
    var visited := new bool[MAX_PAGES](_ => false);
    var q := new Queue();
    q.Enqueue(start);
    visited[start] := true;
    assert visited[..n] == AllUnvisited(n)[start := true];
    order := [];
    assert q.contents == [start];
    assert [] + BfsOrder(adj, start) == BfsOrder(adj, start);
    while q.front != null
      invariant q.Valid() && fresh(q.Repr)
      invariant BfsLoopInv(adj, start, order, q.contents, visited[..n])
      decreases CountUnvisited(visited[..n]) + |q.contents|
    {
      BfsLoopStep(adj, start, order, q.contents, visited[..n]);
      var pageIndex := VisitHead(graph, q, visited);
      order := order + [pageIndex];
    }
  }
}
