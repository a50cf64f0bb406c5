# Web crawler graph traversals in Dafny

This project models `maincode.c`, a small web-crawler demonstration. A site is
a fixed-capacity table of at most `MAX_PAGES` (15) pages. Each page has a URL
label of fewer than `MAX_URL_LEN` (100) characters and an adjacency list of
outbound links. `addEdge` puts each new link at the head of that list. The
program crawls the site from page 0 in one of two ways:

- `bfsTraversal` uses a linked FIFO queue and a local table of `visited` flags.
- `dfsTraversal` recurses over a caller-supplied `visited` table.

`main` builds a ten-page sample site and runs the traversal the user picks.

The model follows the C code's structure:

- `decimal.dfy` (module `Decimal`): decimal rendering of page numbers. It
  covers the `"%d"` part of the default label `Page_<i>` and the reading that
  inverts it.
- `marks.dfy` (module `Marks`): the `visited` flags as a boolean sequence, the
  count of unvisited pages (the measure both traversals use up), and visit
  orders without repetitions.
- `graph.dfy` (module `WebGraph`): class `Graph`. Its `urls` and `adjList` are
  arrays updated in place. The module also defines links, paths and
  reachability.
- `queue.dfy` (module `PageQueue`): class `Queue`, a singly linked chain of
  `QueueNode`s with `front` and `rear` pointers. Ghost `contents` gives the
  FIFO order it represents.
- `bfs.dfy` (module `Bfs`): `BfsOrder`, a functional specification of the
  pages `bfsTraversal` prints. It comes with its correctness lemmas and with
  the imperative traversal, which is proved equal to it.
- `dfs.dfy` (module `Dfs`): the same for `dfsTraversal`. The specification is
  a pair of mutually recursive functions (visit a page, scan a list). The
  recursive method is proved equal to them.
- `sample.dfy` (module `SampleSite`): the site `main` builds, both visit
  orders on it, and the choice between the two traversals.

Printing a "Visited" line becomes appending that page to the returned order.

## Model

| member | source | states |
|---|---|---|
| Decimal.NatToString | maincode.c:48 | `%d` text of a page number: non-empty digits with no leading zero, a single digit exactly for numbers below ten |
| Decimal.StringToNatOfNatToString | maincode.c:48 | reading the decimal text of `n` gives back `n` |
| Decimal.NatToStringOfStringToNat | maincode.c:48 | every canonical digit string is the text of the number it denotes, so the rendering is a bijection onto canonical strings |
| WebGraph.DefaultUrl | maincode.c:48 | the default label is "Page_" followed by the canonical decimal text of the page number |
| WebGraph.DefaultUrlFits | maincode.c:48 | for every page index below `MAX_PAGES`, the default label is shorter than `MAX_URL_LEN` |
| WebGraph.Graph.constructor | maincode.c:39-51 | `createGraph`: the table holds `numPages` pages, each with its default label and an empty adjacency list, and every link targets a page in use |
| WebGraph.Graph.SetPageUrl | maincode.c:53-57 | an index below `MAX_PAGES` gets the new label; otherwise nothing changes; every other label and all links are unchanged |
| WebGraph.Graph.AddEdge | maincode.c:59-63 | the target is prepended to the source's list; every other list and every label is unchanged; the site stays well formed |
| WebGraph.ReachableStep | maincode.c:149-157 | following a link from a page reachable from `s` gives a page reachable from `s` |
| WebGraph.ClosedHoldsPath | maincode.c:145-158 | a set of pages that holds a path's first page and is closed under links holds the path's last page |
| WebGraph.PathInRange | maincode.c:149-151 | every page on a path through a well-formed site is a page of the site |
| Marks.AllUnvisited | maincode.c:138 | a cleared flag table of `n` entries, as `int visited[MAX_PAGES] = {0}` leaves it (also line 210): every flag is clear |
| Marks.CountAllUnvisited | maincode.c:138 | a cleared table of `n` flags has `n` unvisited pages |
| Marks.CountMarkOne | maincode.c:153 | setting one flag lowers the unvisited count by one exactly when that flag was clear |
| Marks.NoDupAppend | maincode.c:152-154 | joining two repetition-free orders with no common page gives a repetition-free order |
| PageQueue.QueueNode.constructor | maincode.c:88-94 | a new queue node holds the given page and no successor |
| PageQueue.Queue.constructor | maincode.c:77-85 | `createQueue`: an empty queue, with `front` and `rear` both null |
| PageQueue.Queue.Enqueue | maincode.c:87-102 | the page joins the back of the FIFO, the chain stays well linked, and afterwards `front` and `rear` are both set |
| PageQueue.Queue.Dequeue | maincode.c:104-116 | returns -1 and changes nothing on an empty queue; otherwise returns the head and leaves the rest in order |
| Bfs.Expand | maincode.c:150-156 | the specification of one scan of an adjacency list, giving the new flags and the new queue; its own contract states only that the flag table keeps its size, and its properties are the lemmas `Bfs.ExpandBasics`, `Bfs.ExpandAdded` and `Bfs.ExpandFlags` |
| Bfs.ExpandBasics | maincode.c:149-157 | a scan keeps the queue it started from as a prefix and appends only neighbours; each appended page lowers the unvisited count by one |
| Bfs.ExpandHead | maincode.c:150-156 | one entry of a scan: an unflagged neighbour is flagged and queued, a flagged one is skipped |
| Bfs.ExpandAdded | maincode.c:150-156 | the pages a scan appends were unflagged neighbours, and none is appended twice |
| Bfs.ExpandFlags | maincode.c:150-156 | after a scan, a flag is set exactly when it was set before or its page was appended, and every neighbour is flagged |
| Bfs.BfsRun | maincode.c:145-158 | the pages printed while the outer loop drains the queue; the pages already queued are printed first, in queue order (first in, first out) |
| Bfs.BfsOrder | maincode.c:137-158 | the pages `bfsTraversal` prints: the run from a queue holding only `start`, with only `start` flagged; it begins with `start` (the rest is `Bfs.BfsOrderCorrect`) |
| Bfs.BfsRunCons | maincode.c:145-158 | draining a queue prints its head first, then drains the rest extended by the head's scan |
| Bfs.BfsLoopStep | maincode.c:145-158 | one turn of the outer loop keeps every queued page in range and strictly lowers unvisited count plus queue length, so the loop ends |
| Bfs.SeenGrow | maincode.c:152-154 | queueing unflagged neighbours of a seen page, and flagging exactly those, keeps the seen pages reachable and repetition-free, with the flags matching them |
| Bfs.ClosedGrow | maincode.c:146-157 | once all of a page's links are flagged, printing it keeps "every link out of a printed page is flagged" |
| Bfs.BfsStep | maincode.c:145-158 | one turn of the outer loop keeps the traversal invariant: printed and queued pages are reachable, distinct and exactly the flagged ones, and links out of printed pages are flagged |
| Bfs.BfsRunFromInv | maincode.c:145-158 | from any state that keeps the invariant, the final order is repetition-free, holds only reachable pages, and holds every reachable page |
| Bfs.BfsOrderCorrect | maincode.c:137-160 | a whole BFS starts at `start`, prints no page twice and at most `numPages` pages, and prints a page exactly when it is reachable from `start` |
| Bfs.ScanLinks | maincode.c:149-157 | the inner loop changes the flags of the pages in use and the queue exactly as the specification scan `Expand` does, and leaves every flag beyond them as it was |
| Bfs.VisitHead | maincode.c:145-157 | one turn of the outer loop dequeues the head, a page in range, then scans its list as `Expand` does, and leaves the flags beyond `numPages` as they were |
| Bfs.BfsTraversal | maincode.c:137-160 | `bfsTraversal` prints exactly `BfsOrder(adj, start)`, so `Bfs.BfsOrderCorrect` applies to it |
| Dfs.DfsVisit | maincode.c:162-174 | a visit prints its page first, and the pages printed match the newly set flags in number |
| Dfs.DfsNeighbors | maincode.c:166-173 | a scan prints as many pages as it newly flags |
| Dfs.DfsOrder | maincode.c:209-212 | the pages `main`'s `dfsTraversal(graph, 0, visited)` call prints from a cleared table (lines 162-174 for the recursion); it begins with `start` (the rest is `Dfs.DfsOrderCorrect`) |
| Dfs.DfsVisitFacts | maincode.c:162-174 | after a visit, `v` is flagged, a flag is set exactly when it was before or its page was printed, pages printed after `v` were unflagged, nothing is printed twice, and every link out of a printed page is flagged |
| Dfs.DfsNeighborsFacts | maincode.c:166-173 | the same for a scan, which also leaves every page on the scanned list flagged |
| Dfs.DfsVisitReachable | maincode.c:162-174 | a visit begun at a page reachable from `s` prints only pages reachable from `s` |
| Dfs.DfsNeighborsReachable | maincode.c:166-173 | a scan of pages reachable from `s` prints only pages reachable from `s` |
| Dfs.DfsReachesUnvisited | maincode.c:166-173 | a visit prints the end of every path from `v` whose later pages were all unflagged |
| Dfs.DfsNeighborsHead | maincode.c:167-172 | one entry of a scan: a flagged page is skipped, an unflagged one is visited before the scan goes on |
| Dfs.DfsOrderCorrect | maincode.c:162-174 | a whole DFS from a cleared table starts at `start`, prints no page twice and at most `numPages` pages, and prints a page exactly when it is reachable from `start` |
| Dfs.DfsTraversal | maincode.c:162-174 | `dfsTraversal` prints exactly the order of `DfsVisit`, leaves the flags `DfsVisit` gives, and changes no flag beyond `numPages` |
| SampleSite.SampleUrls | maincode.c:180-189 | the ten labels `main` assigns all fit in a label slot |
| SampleSite.SampleLinks | maincode.c:191-199 | the sample site's lists are well formed over ten pages |
| SampleSite.LabelPages | maincode.c:180-189 | the ten `setPageUrl` calls leave pages 0 to 9 with the given labels and keep the graph valid |
| SampleSite.LinkPages | maincode.c:191-199 | the nine `addEdge` calls on an empty site give each page its later link first: `[[2,1],[4,3],[6,5],[7],[8],[9],[],[],[],[]]` |
| SampleSite.BuildSample | maincode.c:177-199 | `main`'s graph has ten pages with the sample labels and links |
| SampleSite.SampleBfs | maincode.c:207-208 | BFS from page 0 of the sample site prints 0, 2, 1, 6, 5, 4, 3, 9, 8, 7 |
| SampleSite.SampleDfs | maincode.c:209-212 | DFS from page 0 with a cleared table prints 0, 2, 6, 5, 9, 1, 4, 8, 3, 7 |
| SampleSite.SampleSession | maincode.c:203-215 | choice 1 prints the BFS order above, choice 2 the DFS order above, and any other choice prints no page |

## Left out

- Output text: `printGraph`, the traversal headers and each "Visited" line's URL
  are not modelled. Each printed page becomes one entry of the returned order.
- Input: `main` reads `choice` with `scanf`. Here it is a parameter of
  `SampleSession`.
- Allocation failure: the `exit(EXIT_FAILURE)` branches after `malloc` are not
  modelled. Allocation always succeeds in Dafny.
- Freeing memory: `freeGraph`, `freeQueue` and the `free` in `dequeue` are not
  modelled. `PageQueue.Queue.Dequeue` keeps the unlinked node in the ghost
  footprint `Repr`.
- Byte-level strings: `strncpy` and `snprintf` are not modelled at the level
  of bytes. Labels are character sequences, and no NUL terminator or padding
  is represented.
- `createGraphNode` is not a member of its own. A link node corresponds to an
  entry of the page's adjacency sequence, and `WebGraph.Graph.AddEdge` builds
  the new list as a value (`[dest]` followed by the old list) instead of
  allocating a node.
- Flags: the `int visited[]` flags are booleans, with true standing for 1.
- WebGraph.Graph.constructor: requires `0 <= numPages <= MAX_PAGES`. The C
  code does not check this, and a larger count writes past the fixed tables.
- WebGraph.Graph.SetPageUrl: requires a non-negative index and a label shorter
  than `MAX_URL_LEN`. The C code checks only `pageIndex < MAX_PAGES`. A
  negative index writes outside the table, and a label of 100 or more
  characters is cut to 100 bytes with no terminating NUL. Neither is
  modelled.
- WebGraph.Graph.AddEdge: requires both pages to be below `numPages`. The C
  code checks neither. `createGraph` initialises `urls` and `adjList` only
  below `numPages`, and `malloc` leaves the rest uninitialised. So a traversal
  that followed a link to a page between `numPages` and `MAX_PAGES` would
  print an uninitialised label and read an uninitialised list pointer, and a
  page outside the tables is out of bounds. All of this is undefined
  behaviour, and none of it is modelled.
- Bfs.BfsTraversal: requires `start` to be below `numPages`. The C code indexes
  the tables without checking.
- Dfs.DfsTraversal: requires a flag table with at least `numPages` entries, as
  `main` passes. It states the result against `DfsVisit` for whatever flags the
  table holds on entry. The properties of a whole traversal
  (`Dfs.DfsOrderCorrect`) are stated for a cleared table, the way `main` calls
  it.
