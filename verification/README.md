# Transit graph core in Dafny

This project models the graph logic of a transit-network viewer and proves
what it computes. The model covers three parts.

- **The graph of stops** (`Graph`, `StopOrder`, `GraphProps`):
  - The constructor builds a sorted stop set and drops stops that are on no line.
  - It derives one edge per adjacent stop pair of each line. A pair that is already connected is skipped.
  - Walking edges are added between stops within a distance, and removed again.
  - Stops can be looked up by a case-insensitive name prefix.
- **Strongly connected components** (`Components`, `ComponentsFirst`, `ComponentsProof`): Kosaraju's two passes.
  - A forward depth-first search lists every stop after everything it reaches.
  - A backward search over in-edges then labels each component.
- **Articulation points** (`ArticulationPoints`, `ArticulationProof`): the depth-first low-link search ("reach back").
  - It runs from every stop not reached yet, so a network of several components is covered.

The state is a value. Stops are indices into the stop collection handed to the
constructor, and lines are indices into the line collection. The graph holds:

- one neighbour set per stop;
- a set of `Edge` values, each carrying its endpoints, transport type, line (none for a walking edge) and distance.

Each mutating operation is a function from graph to graph. The two analyses
are recursive functions that pass their search state along: visited set and
finishing list, a label map, or a depth map and the points found.
Termination follows from the shrinking set of unvisited stops.

Main results:

- **Graph:**
  - Build, recompute and remove keep every neighbour set equal to the endpoint pairs of the edge set.
  - They keep neighbours symmetric and at most one edge per unordered pair.
  - Construction connects every adjacent pair of every line. Its edges are exactly those of the first line position at which each pair occurs.
  - Recomputing connects every pair within the distance. It removes nothing and adds only walking edges.
  - Removal drops exactly the walking edges and is idempotent.
  - Removing and then recomputing keeps the line edges and walks exactly the pairs within the distance that no line connects.
- **Components:** two stops get the same label exactly when each reaches the other. The labels used are exactly `0 .. count-1`.
- **Articulation points:** on symmetric neighbour lists the search reports exactly the stops whose removal leaves two of their neighbours disconnected. In an undirected graph these are exactly the stops whose removal splits their component. For example, the path 0–1–2–3 gives {1, 2} and a single edge gives {}.

Reachability (`Reach`) is defined by explicit paths over adjacency lists:

- `Reaches` is reachability along such a path.
- `ReachesIn` is reachability along a path that stays inside a set of stops.
- `Mutual` is reachability in both directions.

Some inputs are parameters, not modelled values:

- `dist(a, b)`: the geographic distance, a function parameter.
- The iteration order of hash sets, hash-map values and edge lists is given as explicit sequences:
  - the constructor's stop collection `all` and line collection `lines`;
  - the analyses' `stops`, `out`, `inn` and `adj` inputs.

## Model

| member | source | states |
|---|---|---|
| StopOrder.Insert | Graph.java:28 | Adding a stop to the key-ordered stop set keeps it ordered. It adds nothing when a stop with the same key is present, and otherwise adds exactly that stop. |
| StopOrder.TreeSet | Graph.java:28 | The sorted stop set is strictly key-ordered. It holds only the first stop of each key and has a stop for every key of the input. |
| StopOrder.OnSomeLine | Graph.java:29 | Filtering keeps exactly the stops that belong to at least one line, and keeps their order. |
| Graph.Build | Graph.java:27-36 | After construction the stop set is key-ordered. A stop is in it exactly when it is on some line and is the first stop of its key. Every listed stop has a line. |
| Graph.Connect | Graph.java:75-78 | Registering an edge adds exactly that edge to the edge set. It makes its two ends neighbours of each other and changes no other neighbour entry: afterwards `b` lists `a` exactly when it did before or the edge joins them. |
| GraphProps.ConnectValid | Graph.java:72-78 | Connecting a pair that is not yet connected keeps the neighbour sets equal to the edge endpoints and keeps at most one edge per pair. |
| GraphProps.NbrsSymmetric | Graph.java:83-88 | In a valid graph the neighbour relation is symmetric, so "either lists the other" is the same as "each lists the other". |
| GraphProps.BuildEdges | Graph.java:64-80 | The built graph is valid. Every adjacent pair on every line are mutual neighbours. The edges are exactly the edges of the first line positions at which each unordered pair occurs. |
| GraphProps.BuildEdgeLabels | Graph.java:71-75 | Every line edge carries the line it came from, that line's transport type and the distance of its ends. |
| GraphProps.RecomputeWalking | Graph.java:101-116 | Recomputing keeps the graph valid and removes no edge. Every stop pair within the distance are neighbours afterwards. Each new edge is a walking edge without a line between stops within the distance that were not connected. |
| GraphProps.WalkingSelfLoop | Graph.java:102-112 | A stop within the distance of itself and not yet connected to itself gets a walking edge to itself. |
| Graph.RemoveWalkingEdges | Graph.java:124-132 | The removal loop leaves no walking edge and keeps every other edge. It removes only edges and keeps the graph valid. |
| Graph.WithoutWalkingValid | Graph.java:124-132 | Removing the walking edges together with their neighbour entries keeps the neighbour sets equal to the remaining edges' endpoints. |
| GraphProps.RemoveIdempotent | Graph.java:124-132 | Removing the walking edges a second time changes nothing. |
| GraphProps.RemoveThenRecompute | Graph.java:101-132 | After removing and recomputing, the non-walking edges are exactly those before. A pair is joined by a walking edge exactly when it is within the distance (either direction) and no non-walking edge joins it. |
| Graph.AllMatchingStops | Graph.java:178-187 | Returns exactly the stops whose lower-cased name starts with the lower-cased prefix, in stop-set order. |
| Graph.FirstMatchingStop | Graph.java:163-171 | Returns nothing exactly when no stop matches. Otherwise it returns a matching stop that no matching stop precedes in the stop set. |
| Components.ForwardVisit | Components.java:49-58 | The forward search from a stop marks it. The visited set only grows, and the list gains exactly the newly marked stops. |
| Components.ForwardEach | Components.java:52-55 | Visiting a list of successors marks each of them. The finishing list gains exactly the newly marked stops. |
| Components.BackwardVisit | Components.java:60-68 | The backward search labels its start. It never changes an assigned label and gives only the current label. Every stop it labels has all its in-neighbours labelled. |
| Components.Label | Components.java:31-37 | The second pass labels every stop of the order. It keeps existing labels and keeps labels below the component count. |
| Components.FindComponents | Components.java:16-41 | Every stop of the graph gets a label of at least 0, and only stops get one. |
| ComponentsFirst.VisitInv | Components.java:44-58 | The forward search keeps its invariant: each stop is listed only once all its successors are marked, and the listing order respects reachability. |
| ComponentsFirst.FirstPass | Components.java:25-29 | The finishing list holds every stop exactly once. A stop that `u` reaches without being reached back is listed before some stop of `u`'s component. |
| ComponentsProof.KosarajuCorrect | Components.java:11-41 | Two stops share a label exactly when each reaches the other. The labels are `0 .. count-1`, each held by some stop. |
| ComponentsProof.FindComponentsCorrect | Components.java:16-41 | Two stops of the graph share a component id exactly when they are mutually reachable. |
| ComponentsProof.NoEdgesDistinct | Components.java:32-36 | Without edges, any two different stops get different ids. |
| ArticulationPoints.RecArtPts | ArticulationPoints.java:43-63 | The visit gives the stop the depth it was called with, so a tree child is one deeper than its parent. It returns a reach-back between 0 and that depth. It keeps every depth already set and never removes a point. |
| ArticulationPoints.RecNbrs | ArticulationPoints.java:46-61 | The neighbour loop only lowers the reach-back, never below 0. It keeps depths already set and never removes a point. |
| ArticulationPoints.RootNbrs | ArticulationPoints.java:28-33 | The subtree count of a root grows by at most one per neighbour. |
| ArticulationPoints.Roots | ArticulationPoints.java:23-38 | Every stop the outer loop passes ends with a depth. Points found earlier are kept. |
| ArticulationPoints.SearchAll | ArticulationPoints.java:17-41 | After the search every stop has a depth of at least 0. |
| ArticulationPoints.FindArticulationPoints | ArticulationPoints.java:17-41 | The result is a subset of the graph's stops. |
| ArticulationProof.RecSpec | ArticulationPoints.java:43-63 | A visit explores a subtree that its stop spans. No edge leaves the subtree above the returned reach-back, except the one back to the parent. Every articulation point in the subtree is reported and every report is one. |
| ArticulationProof.ChildCut | ArticulationPoints.java:54-57 | A non-root stop with a tree child whose reach-back is at least the stop's depth is an articulation point: the child's subtree is cut off from the parent. |
| ArticulationProof.FinishNode | ArticulationPoints.java:46-62 | When the neighbour loop of a non-root stop ends without reporting it, every neighbour still reaches its parent around it. So it is no articulation point, and every articulation point of its subtree has been reported. |
| ArticulationProof.RootSpec | ArticulationPoints.java:25-36 | A root started more than one subtree exactly when it is an articulation point. |
| ArticulationProof.ArticulationExact | ArticulationPoints.java:3-10 | On symmetric neighbour lists, the result holds exactly the stops whose removal leaves two of their neighbours with no path between them. In an undirected graph these are the stops whose removal splits their component. |
| ArticulationProof.PathExample | ArticulationPoints.java:3-10 | On the path 0–1–2–3 the articulation points are exactly 1 and 2. |
| ArticulationProof.EdgeExample | ArticulationPoints.java:3-10 | A single edge has no articulation point. |

## Left out

- The viewer (drawing, mouse handling, zoom, file loading and number parsing) is not part of this model, and neither is console output (`printGraphData`). Both are user interface or I/O.
- Geographic distance is floating point and computed in code that is not part of this model. It is the total function parameter `dist`, with no NaN.
- Stop ordering (`compareTo`) is not part of this model. Stops carry an integer `key` standing in for it. The sorted set keeps the first of several stops that compare equal, as a sorted set's `add` does.
- The walking transport constant is defined in a file that is not part of this model. It is the string `"walking"`. A line whose type is that string would have its edges treated as walking edges, as in the source.
- Graph.Lower: lower-cases ASCII letters only; Java's locale-aware Unicode lower-casing is not modelled.
- Stop neighbour sets are assumed empty when the graph is constructed, since they are filled only by the graph.
- The read-only views (`getStops`, `getLines`, `getEdges`) are plain field reads. Their unmodifiable wrappers are not modelled.
- Hash-set and hash-map iteration orders are explicit input sequences, and the model does not claim that results are independent of them:
  - The order of the line collection (in the viewer, a hash map's values) decides which line, transport type and direction label the edge of a stop pair that several lines share. Only the first line position of a pair gets an edge (GraphProps.BuildEdges).
  - In the analyses, the order decides only the numbering of the components, not the partition.
- Where the source would throw a NullPointerException on a neighbour or edge end outside the stop set, the analyses instead require `Closed`: every neighbour and edge end is a stop.
- The per-stop out- and in-edge lists read by the component analysis are filled by code that is not part of this model; the graph operations shown only maintain neighbour sets. The component analysis therefore takes the out- and in-lists as input. The articulation analysis likewise takes the neighbour lists as input, as sequences.
- ComponentsProof.KosarajuCorrect: requires that the in-lists are the reverse of the out-lists (`Agree`). Without that the labels are not components, and the source relies on the edge lists being consistent.
- ArticulationProof.ArticulationExact: requires symmetric neighbour lists. The graph keeps its neighbour sets symmetric (GraphProps.NbrsSymmetric), but the step from a graph's neighbour sets to the analysis' input lists is not modelled.
- The DFS recursion depth and the resulting stack exhaustion on very large networks are not modelled.

## Notes on behaviour

- Recomputation walks all ordered stop pairs, each stop paired with itself included. So a stop within the limit of itself, for instance at distance 0 with a limit of 0, gets a walking self-loop (GraphProps.WalkingSelfLoop).
- The stop set is ordered by the stops' own comparison, not necessarily by name.
- Graph.java:72-78 itself only calls `addNeighbour`; whatever the edge constructor does with per-stop edge lists is not part of this model.
