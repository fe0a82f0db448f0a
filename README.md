# Graph path search, modelled in Dafny

This project models the `Graph` class of a small teaching tool for graph searches. The class stores an undirected graph on the vertices `0 .. V-1` as a `V`-by-`V` adjacency matrix of 0s and 1s. It supports three kinds of operation:

- inserting edges, given as 1-based vertex identifiers;
- a breadth-first search (`bfs`) and a depth-first search (`dfs`) between two vertices;
- reading back the path buffer and the matrix.

Both searches leave the path they found in a fixed buffer `path[0 .. pathIndex-1]`, as 1-based identifiers.

The model is a Dafny class, `Core.Graph`, with the source's own in-place state:

- `adj` is an `array2<int>`;
- `visited`, `parent` and `path` are `array<int>` of length `V`;
- `pathIndex` is a `nat`.

The methods follow the source loop by loop:

- the constructor's initialisation loop;
- `AddEdge`'s range check and its two matrix writes;
- the BFS reset, its FIFO queue, its ascending neighbour scan, its parent-pointer walk and its in-place reversal;
- the DFS reset and its recursion, which pushes on entry, stops when end + 1 is on top of the buffer and pops on failure.

The searches are specified against a ghost copy `M` of the matrix, using the notions in module `Walks`:

- walks along matrix edges;
- reachability;
- shortest walks;
- duplicate-free sequences.

The two proofs work like this:

- **Breadth-first search.** Each step of the main loop is a lemma in module `Layering`, about values: the visited marks, the parents, ghost levels and the queue. The loop invariant says that the queue is sorted by level and spans at most two adjacent levels. It also says that every vertex that has left the queue has all its neighbours visited, at most one level further on.
- **Depth-first search.** Each step is a lemma in module `Exploration`. A failed call leaves every vertex it visited closed under edges. A successful call leaves on the buffer a duplicate-free walk through vertices that were unvisited when it started.

Module layout:

| file | module | contents |
|---|---|---|
| `walks.dfy` | `Walks` | matrices, edge insertion, walks, reachability, counting visited marks |
| `layering.dfy` | `Layering` | breadth-first layering and search trees, the breadth-first search state and its step lemmas, the parent walk |
| `exploration.dfy` | `Exploration` | the depth-first search state and its step lemmas |
| `graph.dfy` | `Core` | the class `Graph` |

Inside `Graph`, vertices are 0-based, as in the source after its `v1--` conversion. `AddEdge` takes 1-based identifiers. `Bfs` and `Dfs` take 0-based `start` and `end`, as the source's `bfs`/`dfs` do.

## Model

| member | source | states |
|---|---|---|
| Core.Graph.constructor | index.js:2-17 | A fresh graph on `vertexCount` vertices has the all-zero matrix (`M == Empty(V)`, which is undirected). Every `visited` and `path` entry is 0, every `parent` entry is -1, and `pathIndex` is 0. |
| Core.Graph.AddEdge | index.js:19-30 | Returns true exactly when both 1-based identifiers lie in `1..V`. It then inserts the edge `{v1-1, v2-1}` in both directions and changes no other cell. Otherwise it returns false and leaves the matrix untouched. The matrix stays symmetric with 0/1 entries. |
| Core.Graph.GetPath | index.js:111-113 | The copy of the buffer's first `pathIndex` entries. It has at most `V` entries, because `pathIndex <= V` is an invariant of every operation. |
| Core.Graph.GetAdjacencyMatrix | index.js:115-117 | Reading the matrix out of the array gives exactly the abstract matrix `M`. |
| Core.Graph.Bfs | index.js:32-76 | Returns true if and only if `end` is reachable from `start`. On success the buffer holds a shortest walk from start + 1 to end + 1 along matrix edges, with no repeated vertex. On failure `pathIndex` is 0. The main loop dequeues at most `V` times. |
| Core.Graph.EnqueueNeighbours | index.js:66-72 | The queue afterwards is the old queue followed by `Discovered(M[current], old visited, V)`, i.e. the previously unvisited neighbours of `current` in ascending order. The marks are `MarkedUpTo(...)`: exactly those neighbours are newly visited. The parents are `ParentsUpTo(...)`: exactly those neighbours get `current` as parent. The queue grows by exactly the number of newly visited vertices, and the breadth-first layering invariant (sorted queue, two-level band, expanded vertices closed) still holds. |
| Core.Graph.VisitCandidate | index.js:67-71 | One candidate `i` of the scan: if it is an unvisited neighbour it is marked, gets `current` as parent and joins the back of the queue, otherwise nothing changes. Both the scan record and the layering invariant advance from `i` to `i + 1`. |
| Core.Graph.RebuildPath | index.js:49-62 | Following parent pointers from `end` stops at the sentinel -1, after exactly `level(end) + 1` vertices. After the reversal the buffer is exactly that parent chain read from the root down: the first vertex has parent -1 and each later vertex has the one before it as its parent. It is also a duplicate-free walk from start + 1 to end + 1. |
| Core.TraceChain | index.js:53-56 | The vertices passed on the walk up the parent pointers from `end` to -1, read backwards, form a parent chain from the root. |
| Core.Graph.ReversePath | index.js:57-62 | The swap loop, run while `i < pathIndex / 2` in real division, leaves the first `pathIndex` entries exactly reversed and every entry from `pathIndex` on unchanged. |
| Core.Graph.Dfs | index.js:78-89 | Returns true if and only if `end` is reachable from `start`. On success the buffer holds a walk from start + 1 to end + 1 along matrix edges, with no repeated vertex. On failure every pushed vertex has been popped, so `pathIndex` is 0. |
| Core.Graph.DfsUtil | index.js:91-109 | One recursive call marks `current` visited and can only add visited marks. It keeps the buffer below its entry height. On success end + 1 is on top and the pushed segment is a duplicate-free walk from `current` to `end` through vertices unvisited at entry. On failure the height is restored, `end` is still unvisited, and every newly visited vertex has all its neighbours visited. |
| Core.Graph.ScanNeighbours | index.js:99-106 | The source's test `path[pathIndex-1] === end + 1` after a recursive call holds exactly when that call found `end`, so the early return never fires falsely. On success the buffer from `current` on is a branch to `end`. If the scan runs to the end, everything the call visited is closed. |
| Core.Graph.Descend | index.js:100-104 | The recursive call into an unvisited neighbour `i`, seen from the scan of `current`. Either end + 1 is then on top and the buffer from `current` on is a branch to `end`, or the buffer height is restored, `end` is still unvisited and the scan moves past `i`. The buffer below the entry height is untouched, and visited marks set before the scan began are kept. |
| Walks.WithEdge | index.js:24-26 | Inserting `{a, b}` sets cells `[a][b]` and `[b][a]` to 1, which is the single diagonal cell for a self-loop, and keeps every other cell. |
| Walks.WithEdgeUndirected | index.js:24-26 | Inserting an edge preserves symmetry and the 0/1 entries, and the edge is then present both ways. |
| Walks.WithEdgeIdempotent | index.js:24-27 | Repeating an insertion leaves the matrix as the first insertion left it. |
| Walks.WithEdgeSwap | index.js:24-27 | Inserting `{b, a}` gives the same matrix as inserting `{a, b}`. |
| Walks.SameMatrix | index.js:115-117 | Two square matrices of one size that agree cell by cell are equal, which is how the array contents are identified with the matrix. |
| Walks.Empty | index.js:11-12 | The matrix of a fresh graph is `V`-by-`V`, all zero and undirected. |
| Walks.OnesZero | index.js:34-35 | An all-zero `visited` array counts no visited vertices. |
| Walks.OnesSet | index.js:68 | Marking one unvisited vertex raises the number of visited vertices by exactly one. This bounds the BFS dequeues and the DFS recursion by `V`. |
| Walks.OnesGrow | index.js:92 | Only adding marks never lowers the number of visited vertices. |
| Walks.ClosedContainsWalk | index.js:73-75 | A walk starting inside a vertex set closed under edges stays inside it. So a target left unvisited when a search gives up is unreachable. |
| Layering.LevelLowerBound | index.js:46-72 | In a complete breadth-first layering, no walk from the start reaches a vertex in fewer edges than that vertex's level. This is what makes the BFS path a shortest one. |
| Layering.FrontierStart | index.js:41-44 | After `start` is marked and enqueued, one vertex is visited and the layering invariant holds. |
| Layering.FrontierDequeue | index.js:47 | Removing the front vertex, when it is not `end`, starts its neighbour scan with the invariant intact. |
| Layering.TreeExtend | index.js:68-69 | Giving an unvisited neighbour `i` the parent `current` keeps a search tree. Every visited vertex other than the root has a visited parent joined to it by an edge, one level lower. |
| Layering.BoundedExtend | index.js:68 | Marking a vertex visited one level above its parent keeps every level below the number of visited vertices. |
| Layering.QueueExtend | index.js:70 | Appending a newly visited vertex one level above the one being expanded keeps the queue visited, sorted by level and within two levels. |
| Layering.ExpandedExtend | index.js:67-72 | Discovering a neighbour keeps every expanded vertex closed and extends the scan of `current` past it. |
| Layering.ScanDiscover | index.js:67-71 | The discovery branch of the scan preserves the whole scanning invariant and adds one visited vertex. |
| Layering.ScanSkip | index.js:67 | A candidate that is not a neighbour, or is already visited, leaves the scanning invariant intact. |
| Layering.ScanDone | index.js:66-72 | After all `V` candidates the main-loop invariant holds again. |
| Layering.FrontierFound | index.js:49 | When `end` reaches the front of the queue, every vertex on a lower level has been expanded. |
| Layering.FrontierExhausted | index.js:46-75 | When the queue runs empty, the visited set is closed under edges and `end` was never visited. |
| Layering.TraceStart | index.js:51 | The parent walk starts at `end`, which is visited, with nothing passed yet. |
| Layering.TraceStep | index.js:53-56 | One step of the parent walk stays on visited vertices joined by edges, one level lower each time. |
| Layering.TraceEnd | index.js:53-56 | When the walk reaches -1 it has passed `level(end) + 1` vertices. Read backwards, they form a duplicate-free walk from `start` to `end`. |
| Layering.ReversedIds | index.js:54-62 | Reversing the buffer of 1-based identifiers names the reversed vertex sequence. |
| Layering.DiscoveredMembers | index.js:66-70 | The vertices the scan of one matrix row appends are exactly the `w` below the bound with `row[w] == 1` and `visited[w] == 0`, in strictly ascending order, each once. |
| Layering.DiscoveredStep | index.js:66-70 | Scanning one more candidate appends it to the discovered list exactly when it is an unvisited neighbour. |
| Layering.MarkedUpToCells | index.js:67-68 | After the scan below `i`, exactly the unvisited neighbours below `i` are newly marked visited and every other mark is unchanged. |
| Layering.MarkedAbove | index.js:66-68 | The scan has not touched the mark of any candidate at or above `i`, so the test `visited[i] === 0` reads the mark from before the scan. |
| Layering.ParentsUpToCells | index.js:67-69 | After the scan below `i`, exactly the unvisited neighbours below `i` have parent `current` and every other parent is unchanged. |
| Layering.RecordDiscover | index.js:67-70 | Discovering candidate `i` extends the record of the scan: marks, parents and queue are those of the scan up to `i + 1`. |
| Layering.RecordSkip | index.js:67 | Passing over candidate `i` leaves marks, parents and queue equal to those of the scan up to `i + 1`. |
| Exploration.BranchHere | index.js:95-96 | Reaching `end` leaves the one-vertex branch `[end]`. |
| Exploration.BranchCons | index.js:100-103 | A branch found from a neighbour, preceded by the current vertex, is a branch from the current vertex. |
| Exploration.BranchExtend | index.js:93-103 | The same, read off the buffer: the child's segment sits right after the entry `current + 1`. |
| Exploration.ExploreStart | index.js:92 | The scan of a vertex starts with no neighbour examined. |
| Exploration.ExploreSkip | index.js:100 | Passing over a non-neighbour or a visited vertex keeps the scan invariant. |
| Exploration.ExploreChildFailed | index.js:101-105 | After a failed recursive call, everything it visited is closed, so the scan moves past that neighbour. |
| Exploration.ExploreDone | index.js:99-108 | When the scan completes without success, every vertex the call visited is closed. |
| Exploration.ClosedFromScratch | index.js:84-86 | A failed search that started from all-unvisited leaves a visited set closed under edges. |

## Left out

- The `GraphUI` class (`index.js:120-384`) and the page bootstrap (`index.js:387-389`) are not part of this model. They handle DOM access, event handlers, HTML rendering and console logging with timestamps.
- Parsing of the connection lists with `split`/`parseInt` and the 1..20 vertex-count policy belong to the UI and are not modelled. `formatPath` is also not modelled, because it only formats HTML.
- Core.Graph.Bfs, Core.Graph.Dfs: `start` and `end` are required to be vertices. The source does not check them; its caller only passes values from the vertex selector. For an integer `start` outside `0..V-1`, the source first writes `visited[start]` (and, in `bfs`, `parent[start]`) as a property outside the arrays' range (index.js:42-43, index.js:92). What follows depends on the case: (1) if `start == end`, `dfs` returns true with the one-entry path `[start + 1]` (index.js:92-96, 88). `bfs` returns true with `[start + 1]` as well (index.js:49-56), except for `start == end == -1`: then the walk at index.js:53 stops at once and `bfs` returns true with the empty path; (2) if `start != end` and `V >= 1`, both searches throw a TypeError when they read `this.adjMatrix[current][i]` from an undefined row (index.js:67, index.js:100); (3) if `start != end` and `V == 0`, the scan loops (index.js:66, index.js:99) run zero times, so `bfs` runs out of queue and `dfs` pops its one entry (index.js:108), and both return false. With a valid `start` and `end` outside the range, both searches return false. None of this is modelled.
- Core.Graph.AddEdge: arguments are integers. The source's behaviour for non-numeric or fractional identifiers is not modelled.
- Core.Graph.GetAdjacencyMatrix: the source returns a live reference to its array, which a caller could mutate. The model returns the matrix contents as a value.
- Core.Graph.GetPath and the searches: JavaScript arrays grow on an out-of-range write. The model instead uses fixed arrays of length `V` and proves that `pathIndex <= V` always holds, so no write leaves the buffer.
- Core.Graph.Bfs: the queue (`shift`/`push` on a JavaScript array) is a local `seq<int>`. The ghost out-parameter `rounds` only counts dequeues. The ghost `lvl` (breadth-first levels) exists only for the proof and has no counterpart in the source.
- Core.Graph.Bfs: the contract promises a shortest duplicate-free path. It does not say which shortest path the ascending scan order picks when there are several; the order in which each scan appends to the queue and the parents it records are stated by Core.Graph.EnqueueNeighbours, and Core.Graph.RebuildPath states that the buffer is the parent chain.
- Core.Graph.Dfs: the contract promises a duplicate-free path. It does not say which one the ascending neighbour order picks. The method body does follow that order, as the source does.
- Core.Graph.DfsUtil: the source's single method is split into `DfsUtil`, `ScanNeighbours` (its loop) and `Descend` (the recursive call in the loop body), which are mutually recursive. `ScanNeighbours` keeps the source's test of the top of the buffer and its early return. `DfsUtil` pops `current` when the scan returns with something other than end + 1 on top, which is exactly when the source's loop runs to its end.
- Core.Graph.EnqueueNeighbours: the body of the source's scan loop is the method `VisitCandidate`, which the loop calls once per candidate.
