/** The site graph: a fixed-capacity table of pages, each with a URL label and
    an adjacency list of outbound links, newest link first. */
module WebGraph {
  import opened Decimal

  const MAX_URL_LEN := 100
  const MAX_PAGES := 15

  /** The placeholder label "Page_<i>" every page gets at creation. */
  function DefaultUrl(i: nat): (u: string)
    ensures |u| > 5 && u[..5] == "Page_"
    ensures IsCanonical(u[5..]) && StringToNat(u[5..]) == i
  {
    StringToNatOfNatToString(i);
    var u := "Page_" + NatToString(i);
    assert u[5..] == NatToString(i);
    u
  }

  /** Page numbers below `MAX_PAGES` have at most two digits, so the default label always fits. */
  lemma DefaultUrlFits(i: nat)
    requires i < MAX_PAGES
    ensures |DefaultUrl(i)| < MAX_URL_LEN
  {
    if i >= 10 {
      assert i / 10 < 10;
      assert |NatToString(i / 10)| == 1;
    }
  }

  /** Every link in the first `|adj|` pages points at one of those pages. */
  ghost predicate WellFormed(adj: seq<seq<int>>) {
    forall v, w :: 0 <= v < |adj| && w in adj[v] ==> 0 <= w < |adj|
  }

  /** `p` is a walk along links, from `p[0]` to its last page. */
  ghost predicate IsPath(adj: seq<seq<int>>, p: seq<int>)
    decreases |p|
  {
    |p| > 0 && 0 <= p[|p| - 1] < |adj| &&
    (|p| > 1 ==> IsPath(adj, p[..|p| - 1]) && p[|p| - 1] in adj[p[|p| - 2]])
  }

  ghost predicate Reachable(adj: seq<seq<int>>, s: int, t: int) {
    exists p :: IsPath(adj, p) && p[0] == s && p[|p| - 1] == t
  }

  lemma ReachableSelf(adj: seq<seq<int>>, s: int)
    requires 0 <= s < |adj|
    ensures Reachable(adj, s, s)
  {
    assert IsPath(adj, [s]);
  }

  /** Following one more link from a reachable page reaches its target. */
  lemma ReachableStep(adj: seq<seq<int>>, s: int, v: int, w: int)
    requires WellFormed(adj) && Reachable(adj, s, v) && 0 <= v < |adj| && w in adj[v]
    ensures Reachable(adj, s, w)
  {
    var p :| IsPath(adj, p) && p[0] == s && p[|p| - 1] == v;
    var q := p + [w];
    assert q[..|q| - 1] == p;
    assert IsPath(adj, q);
  }

  /** Every page of a path is a page of the graph. */
  lemma {:induction false} PathInRange(adj: seq<seq<int>>, p: seq<int>)
    requires IsPath(adj, p)
    ensures forall i :: 0 <= i < |p| ==> 0 <= p[i] < |adj|
    decreases |p|
  {
    if |p| > 1 {
      PathInRange(adj, p[..|p| - 1]);
    }
  }

  /** A set of pages that holds the first page of a path and is closed under
      links holds its last page too. */
  lemma {:induction false} ClosedHoldsPath(adj: seq<seq<int>>, pages: seq<int>, p: seq<int>)
    requires IsPath(adj, p) && p[0] in pages
    requires forall x :: x in pages ==> 0 <= x < |adj| && forall w :: w in adj[x] ==> w in pages
    ensures p[|p| - 1] in pages
    decreases |p|
  {
    if |p| > 1 {
      ClosedHoldsPath(adj, pages, p[..|p| - 1]);
    }
  }

  /** The graph. `urls` and `adjList` are the fixed-size tables of the C record;
      `numPages` is the count chosen at creation. Each adjacency list is kept as
      the sequence of targets its linked nodes hold, head first. */
  class Graph {
    const numPages: int
    const urls: array<string>
    const adjList: array<seq<int>>

    ghost predicate Valid()
      reads urls, adjList
    {
      0 <= numPages <= MAX_PAGES &&
      urls.Length == MAX_PAGES && adjList.Length == MAX_PAGES &&
      (forall i :: 0 <= i < MAX_PAGES ==> |urls[i]| < MAX_URL_LEN) &&
      WellFormed(adjList[..numPages])
    }

    /** The adjacency lists of the pages in use. */
    ghost function Adj(): (adj: seq<seq<int>>)
      reads urls, adjList
      requires Valid()
      ensures |adj| == numPages && WellFormed(adj)
    {
      adjList[..numPages]
    }

    /** `createGraph`: every page in use gets its default label and no links. */
    constructor (numPages: int)
      requires 0 <= numPages <= MAX_PAGES
      ensures Valid() && this.numPages == numPages
      ensures fresh(urls) && fresh(adjList)
      ensures forall i :: 0 <= i < numPages ==> urls[i] == DefaultUrl(i) && adjList[i] == []
    {
      var labels := new string[MAX_PAGES](_ => "");
      var lists := new seq<int>[MAX_PAGES](_ => []);
      for i := 0 to numPages
        invariant forall j :: 0 <= j < i ==> labels[j] == DefaultUrl(j) && lists[j] == []
        invariant forall j :: 0 <= j < MAX_PAGES ==> |labels[j]| < MAX_URL_LEN
      {
        lists[i] := [];
        DefaultUrlFits(i);
        labels[i] := DefaultUrl(i);
      }
      this.numPages := numPages;
      urls := labels;
      adjList := lists;
    }

    /** `setPageUrl`: overwrites one label when the index is below the table
        size, and is a no-op otherwise; the links never change. */
    method SetPageUrl(pageIndex: int, url: string)
      requires Valid()
      requires 0 <= pageIndex && |url| < MAX_URL_LEN
      modifies urls
      ensures Valid()
      ensures pageIndex < MAX_PAGES ==> urls[pageIndex] == url
      ensures forall i :: 0 <= i < MAX_PAGES && i != pageIndex ==> urls[i] == old(urls[i])
      ensures adjList[..] == old(adjList[..])
    {
      if pageIndex < MAX_PAGES {
        urls[pageIndex] := url;
      }
    }

    /** `addEdge`: the new link goes to the head of the source's list; duplicates
        and self-links are kept, and nothing else changes. */
    method AddEdge(src: int, dest: int)
      requires Valid()
      requires 0 <= src < numPages && 0 <= dest < numPages
      modifies adjList
      ensures Valid()
      ensures adjList[src] == [dest] + old(adjList[src])
      ensures forall i :: 0 <= i < MAX_PAGES && i != src ==> adjList[i] == old(adjList[i])
      ensures Adj() == old(Adj())[src := [dest] + old(Adj())[src]]
      ensures urls[..] == old(urls[..])
    {
      adjList[src] := [dest] + adjList[src];
      assert adjList[..numPages] == old(adjList[..numPages])[src := [dest] + old(adjList[src])];
    }
  }
}
