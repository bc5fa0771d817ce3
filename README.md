# Sliding-window graph stream operator — a Dafny model

This project models the core of a sliding-window operator for graph streams,
built for the RSP4J stream-reasoning runtime. Timestamped graph fragments
arrive one at a time. The operator `CustomGraphStreamOp` does four things:

- it keeps a buffer of (fragment, timestamp) entries and a working graph;
- it runs a pluggable close policy after each admitted fragment;
- on close, it reports a content that holds the working graph, then resets;
- it evicts buffer entries older than the window span.

A content (`ContentGeneralGraph`) holds a set of fragments and can merge them
into one graph. Two reference close policies are modelled:

- `ShortestPathAlgorithm` caches distances from a start vertex and closes once
  the distance to an end vertex exceeds a threshold;
- `GraphDiameterAlgorithm` recomputes the largest all-pairs path weight and
  closes once it exceeds a threshold.

## How the model is built

- `graphs.dfy`, module `Graphs`: a graph is a value made of a vertex set and a
  set of undirected edges. Each edge is the set of its two endpoints, because
  the graphs are simple (no loops, no multi-edges). `Union` is the reference
  merge: all vertices and all edges of every fragment.
- `distances.dfy`, module `Distances`: a path weight is `Fin(r)` or `Inf`
  (no path). The code only compares weights and takes their maximum. Both are
  exact on doubles, so reals model them.
- `clock.dfy`, module `Clock`: the application clock `Time` that the operator
  and its contents share. The operator only reads `appTime`.
- `content.dfy`, module `Content`: `ContentGeneralGraph` is a class. `Add`
  updates its fragment set and its last-changed stamp in place. `Coalesce`
  runs the nested insertion loops of the source and is proved equal to the
  `Union` of the fragments.
- `shortest_path.dfy` and `diameter.dfy`: the two policies are classes. Each
  `Process` has the source's loop: a map update per vertex, and a running
  maximum over all vertex pairs. The library's shortest-path routines become a
  distance oracle `dist`, which is a constant function field of the policy.
- `policy.dfy`, module `Policies`: the policy interface. It is a datatype with
  one case per policy class. `Process` and `ShouldCloseWindow` dispatch on it.
  `Processed` (a two-state predicate) and `Closes` say what each case does.
- `window_operator.dfy`, module `WindowOperator`: the operator is a class with
  the mutable fields `buffer` (a sequence) and `graph`. The report
  collaborator is a constant function field `report`, whose result says
  whether the report was delivered. Two ghost sequences, `reports` and
  `ticks`, record the calls made to the report and tick collaborators.
- `scenarios.dfy`: two concrete call sequences on the operator, verified
  (not executed). They show what the code
  does where its tests expect something else (see below).

### Where the code is modelled as written

- `windowing` adds the incoming fragment itself as one vertex of the working
  graph, with no edges (`CustomGraphStreamOp.java:113`). That call passes a
  `Graph<T, DefaultEdge>` where a `T` is expected, so it type-checks only
  with raw types; the model follows that reading. The model's working
  graph therefore has fragments as its vertices and always has an empty edge
  set. `content` and `getContents` build their graph the same way.
- `windowing` never calls `setAppTime` (`CustomGraphStreamOp.java:103-133`).
  So a fragment is rejected only when its timestamp is before an `appTime`
  that someone else set; equal timestamps are accepted. The test at
  `TestProva.java:171` expects `appTime` to advance to the admitted timestamp,
  and the test at `TestProva.java:157-159` expects a later, earlier-stamped
  fragment to be rejected. The model follows the code: `AppTimeNotAdvanced`
  shows that such a fragment is accepted, and the clock stays 0.
- On close, the code clears buffer and working graph whatever `report`
  returns (`CustomGraphStreamOp.java:123-129`). Only the tick depends on the
  answer.
- Eviction (`cleanUpWindows`) removes entries from the buffer only. Fragments
  stay in the working graph until the next close.
  `EvictionKeepsWorkingGraph` shows this.
- The report at `CustomGraphStreamOp.java:123` passes the result of `add`,
  which returns nothing. The model reports what that line evidently means: a
  fresh content holding the working graph, stamped with the clock's time.
- Policy state is never reset by the operator. The diameter policy resets its
  own running value on every update; the shortest-path cache only grows.

## Model

| member | source | states |
|---|---|---|
| `Graphs.AddVertex` | yasper/src/main/java/ContentGeneralGraph.java:46-48 | addVertex inserts one vertex and keeps the edges; inserting a present vertex changes nothing; a well-formed graph stays well formed |
| `Graphs.AddEdge` | yasper/src/main/java/ContentGeneralGraph.java:49-51 | addEdge between two distinct existing vertices keeps the vertex set; the new edge set is the old one plus exactly that undirected edge, and an edge already present leaves the graph unchanged; well-formedness is kept |
| `Graphs.UnionMembers` | yasper/src/main/java/ContentGeneralGraph.java:44-53 | a vertex or an edge is in the merged graph exactly when some fragment has it |
| `Graphs.UnionInsert` | yasper/src/main/java/ContentGeneralGraph.java:45-52 | merging one more fragment adds exactly its vertices and its edges |
| `Graphs.UnionSingleton` | yasper/src/main/java/ContentGeneralGraph.java:41-42 | the merge of a single fragment is that fragment, so the single-element shortcut agrees with the general merge |
| `Graphs.UnionEmpty` | yasper/src/main/java/ContentGeneralGraph.java:44 | the merge of no fragments is the empty graph |
| `Graphs.UnionWellFormed` | yasper/src/main/java/ContentGeneralGraph.java:45-51 | endpoint closure: if every fragment's edges join its own vertices, every merged edge joins two merged vertices |
| `Graphs.UnionOfParts` | yasper/src/main/java/ContentGeneralGraph.java:45-52 | the merge of two groups of fragments is the merge of the two merges, so the result does not depend on iteration order |
| `Distances.Greater` | yasper/src/main/java/GraphDiameterAlgorithm.java:36 | Java's `>` on path weights: strict (no weight is greater than itself), +infinity is greater than every finite weight, nothing is greater than +infinity, and finite weights compare as reals |
| `Distances.Exceeds` | yasper/src/main/java/ShortestPathAlgorithm.java:34 | a weight exceeds a finite threshold: +infinity always does, a finite weight exactly when it is strictly larger |
| `Clock.Time.constructor` | yasper/src/test/java/TestProva.java:306-322 | the clock holds the appTime it was given, which is what `getAppTime` returns |
| `Content.AddVertices` | yasper/src/main/java/ContentGeneralGraph.java:46-48 | the vertex loop adds all of a fragment's vertices and no edge |
| `Content.AddEdges` | yasper/src/main/java/ContentGeneralGraph.java:49-51 | once a fragment's vertices are in, its edge loop adds exactly its edges, each between its source and target, and the graph stays well formed |
| `Content.EdgeEnds` | yasper/src/main/java/ContentGeneralGraph.java:50 | an edge's source and the other endpoint, its target, make up the whole edge |
| `Content.ContentGeneralGraph.constructor` | yasper/src/main/java/ContentGeneralGraph.java:16-19 | a new content holds no fragments, has stamp 0 and uses the given clock |
| `Content.ContentGeneralGraph.Size` | yasper/src/main/java/ContentGeneralGraph.java:22-24 | size is the number of distinct fragments; 0 exactly when there are none |
| `Content.ContentGeneralGraph.Add` | yasper/src/main/java/ContentGeneralGraph.java:27-30 | add makes the fragment a member; size grows by one for a new fragment and stays the same for a present one; the stamp becomes the clock's appTime |
| `Content.ContentGeneralGraph.Coalesce` | yasper/src/main/java/ContentGeneralGraph.java:40-55 | with one fragment the result is that fragment; in every case the result is the union of all fragments' vertices and edges, and it is well formed |
| `Content.ContentGeneralGraph.Equals` | yasper/src/main/java/ContentGeneralGraph.java:58-64 | two contents are equal exactly when the other is not null and both have the same fragment set and the same stamp |
| `ShortestPath.UpdateDistances` | yasper/src/main/java/ShortestPathAlgorithm.java:37-46 | after an update the keys are the old keys plus the graph's vertices; each vertex of the graph maps to its distance from the start vertex; every other key keeps its old value |
| `ShortestPath.CloseOnDistance` | yasper/src/main/java/ShortestPathAlgorithm.java:29-35 | an absent end vertex closes the window; a present one closes it exactly when its distance is strictly greater than the threshold |
| `ShortestPath.UpdateEmptyGraph` | yasper/src/main/java/ShortestPathAlgorithm.java:42-45 | processing a graph with no vertices leaves the cache unchanged |
| `ShortestPath.UpdateIdempotent` | yasper/src/main/java/ShortestPathAlgorithm.java:37-46 | processing the same graph twice gives the same cache as processing it once |
| `ShortestPath.PathExampleCloses` | yasper/src/test/java/TestProva.java:294-302 | on path A-B-C, with start A, end C, threshold 1.5 and distance 2 to C, the window closes |
| `ShortestPath.ShortestPathAlgorithm.constructor` | yasper/src/main/java/ShortestPathAlgorithm.java:15-20 | a fresh policy has an empty cache and so would close at once |
| `ShortestPath.ShortestPathAlgorithm.Process` | yasper/src/main/java/ShortestPathAlgorithm.java:23-46 | the per-vertex put loop leaves the cache equal to `UpdateDistances` of the old cache |
| `ShortestPath.ShortestPathAlgorithm.ShouldCloseWindow` | yasper/src/main/java/ShortestPathAlgorithm.java:29-35 | the decision is `CloseOnDistance` of the current cache; nothing changes |
| `Diameter.DiameterUnique` | yasper/src/main/java/GraphDiameterAlgorithm.java:27-40 | the diameter is determined by the graph and the oracle alone; the previous value plays no part |
| `Diameter.DiameterOfEmptyGraph` | yasper/src/main/java/GraphDiameterAlgorithm.java:32-40 | a graph with no vertices has diameter 0 |
| `Diameter.DiameterUnreachable` | yasper/src/main/java/GraphDiameterAlgorithm.java:35-38 | one unreachable pair makes the diameter infinite, which exceeds every finite threshold |
| `Diameter.GraphDiameterAlgorithm.constructor` | yasper/src/main/java/GraphDiameterAlgorithm.java:10-13 | a fresh policy holds 0, so it closes exactly when 0 is greater than the threshold |
| `Diameter.GraphDiameterAlgorithm.Process` | yasper/src/main/java/GraphDiameterAlgorithm.java:16-40 | after the reset and the nested loop the value is at least 0 and at least every pair's weight, and it is either 0 or some pair's weight |
| `Diameter.GraphDiameterAlgorithm.ShouldCloseWindow` | yasper/src/main/java/GraphDiameterAlgorithm.java:22-25 | closes exactly when the value is strictly greater than the threshold; nothing changes |
| `Policies.Process` | yasper/src/main/java/GraphProcessingAlgorithm.java:5 | process runs the policy's own update step on the graph |
| `Policies.ShouldCloseWindow` | yasper/src/main/java/GraphProcessingAlgorithm.java:6 | shouldCloseWindow answers the policy's close decision and changes nothing |
| `WindowOperator.Retained` | yasper/src/main/java/CustomGraphStreamOp.java:153-155 | eviction keeps exactly the entries stamped at or after the horizon, and no others |
| `WindowOperator.RetainedAppend` | yasper/src/main/java/CustomGraphStreamOp.java:153-155 | eviction keeps the buffer's order: filtering a buffer with one more entry at the end filters the old part, then keeps or drops that entry |
| `WindowOperator.RetainedIdempotent` | yasper/src/main/java/CustomGraphStreamOp.java:153-155 | evicting twice at the same horizon is the same as evicting once |
| `WindowOperator.WindowedElementsRetained` | yasper/src/main/java/CustomGraphStreamOp.java:80-89 | the fragments a content sees at time t are the fragments of the entries that eviction at horizon t would keep |
| `WindowOperator.CollectWindow` | yasper/src/main/java/CustomGraphStreamOp.java:81-85 | the forEach builds a graph with no edges whose vertices are exactly the fragments of the entries stamped at or after the horizon |
| `WindowOperator.NewEntrySurvives` | yasper/src/main/java/CustomGraphStreamOp.java:112 | with a window size of 0 or more, the entry just admitted survives the eviction that follows, as the last entry |
| `WindowOperator.HorizonEviction` | yasper/src/main/java/CustomGraphStreamOp.java:132 | with window size 60000, an entry at T is evicted when an entry at T + 100000 is admitted |
| `WindowOperator.CustomGraphStreamOp.constructor` | yasper/src/main/java/CustomGraphStreamOp.java:43-57 | a new operator has an empty buffer and an empty working graph, and has made no reports or ticks |
| `WindowOperator.CustomGraphStreamOp.Scope` | yasper/src/main/java/CustomGraphStreamOp.java:145-151 | the window closes at t_e and opens windowSize before it |
| `WindowOperator.CustomGraphStreamOp.Windowing` | yasper/src/main/java/CustomGraphStreamOp.java:103-133 | a timestamp before appTime is rejected and nothing changes; an equal or later one is accepted. On acceptance, the policy has processed the old graph plus the fragment. If it closes, one report goes out, a tick follows only if the report was delivered, and buffer and graph end up empty. Otherwise the graph has the fragment added and the buffer is the old buffer plus the entry, filtered at ts - windowSize. Every remaining entry is at or after ts - windowSize. appTime never changes. |
| `WindowOperator.CustomGraphStreamOp.CloseWindow` | yasper/src/main/java/CustomGraphStreamOp.java:120-130 | on close, one report of the working graph for `scope(t_e)` goes out, a tick follows only if it was delivered, and buffer and graph are emptied either way |
| `WindowOperator.CustomGraphStreamOp.CleanUpWindows` | yasper/src/main/java/CustomGraphStreamOp.java:153-155 | the buffer becomes the entries at or after t_e - windowSize, in order; the working graph is not touched |
| `WindowOperator.CustomGraphStreamOp.Content` | yasper/src/main/java/CustomGraphStreamOp.java:80-89 | a fresh content with one graph, whose vertices are the fragments buffered at or after t_e - windowSize, with no edges; the stamp is appTime; the operator does not change |
| `WindowOperator.CustomGraphStreamOp.GetContents` | yasper/src/main/java/CustomGraphStreamOp.java:91-101 | a one-element list holding the same content as `content(t_e)` |
| `WindowOperator.CustomGraphStreamOp.Evict` | yasper/src/main/java/CustomGraphStreamOp.java:135-138 | evict() changes nothing |
| `WindowOperator.CustomGraphStreamOp.EvictAt` | yasper/src/main/java/CustomGraphStreamOp.java:140-143 | evict(ts) changes nothing |
| `Scenarios.AppTimeNotAdvanced` | yasper/src/test/java/TestProva.java:142-171 | as written, a fragment stamped 100000 ms before an admitted one is accepted too, and appTime is still 0 |
| `Scenarios.EvictionKeepsWorkingGraph` | yasper/src/main/java/CustomGraphStreamOp.java:112-132 | as written, with a shortest-path policy that stays open (start and end the first fragment, distance 0 to itself, +infinity between distinct fragments, threshold 1.0), a fragment evicted from the buffer stays a vertex of the working graph |

## Left out

- Logging and console output (`log.debug`, `log.error`, `System.out.println`): these are side-effect output only.
- The runtime plumbing of the operator: `report()`, `tick()`, `grain()`, `time()`, `getName()`, `get()` and the `TimeVaryingObject` it returns; the `iri`, `tick`, `grain` and `cf` fields; and the `currentTime` field, which is set to 0 and never read. None of these has logic of its own.
- `TickerFactory` and the ticker: the ticker is recorded only as the sequence of tick calls the operator makes.
- The wall clock (`System.currentTimeMillis`): it is a parameter of `Windowing`.
- `BetweennessCentralityAlgorithm`: its decision is one comparison over library scores, so it is not a case of the policy datatype. The policy interface is a closed datatype of the two modelled policies. The engine's contract is stated only through `Processed` and `Closes`, so another policy needs only a new case of the datatype and of those two predicates; `Windowing` and its proof do not change.
- The library's shortest-path algorithms (Dijkstra, Floyd-Warshall): each is a distance oracle. The oracle is total. The model therefore does not capture the library's exception when the start vertex is missing from the graph.
- `hashCode`, `toString`, `ContentFactoryImpl` and `IterableGraph`: `Coalesce` returns the graph that `IterableGraph` wraps.
- Java's 64-bit `long` arithmetic: `ts - windowSize` is computed on unbounded integers. For a non-negative `windowSize`, wrap-around happens only for timestamps within `windowSize` of the smallest `long`; for a negative `windowSize` (the constructor accepts any `long`), it happens for timestamps within `-windowSize` of the largest `long`.
- NaN and infinite thresholds: thresholds are finite reals, and path weights are finite reals or +infinity.
- Graph types other than simple undirected graphs: loops, multi-edges and directed fragments are not modelled.
- Concurrency: the operator has no guarding, and the model is sequential.
- Content.ContentGeneralGraph.Add, Content.ContentGeneralGraph.Size, Content.ContentGeneralGraph.Equals and WindowOperator.CustomGraphStreamOp.Windowing: fragments are compared as values. In the code a fragment is a mutable library graph object shared with the caller, and the library's graph equality compares edge objects by identity. So two separately built but structurally equal fragments with edges are two members of a content and two vertices of the working graph in the code, and one in the model; a policy then sees one vertex where the code has two. A caller changing a fragment after `windowing` (which would change the working graph's vertex) is not modelled either.
- Content.ContentGeneralGraph.Add: it requires the fragment to be well formed. A graph value from the library always is.
