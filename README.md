# gograph, modelled in Dafny

gograph is a small Go library for graphs whose nodes and edges carry
dynamically typed attributes. This project models its core:

- the attribute store (`attr.go`);
- nodes and their neighbour lists (`node.go`);
- edges and how their IDs are made (`edge.go`);
- the graph with its node and edge tables, `AddNode`, `AddEdge`,
  `HasConnection` and the sorted iteration `IterNodes` (`graph.go`);
- the breadth-first search that writes every node's hop distance from a
  root into an attribute (`algo_bfs.go`).

The model then proves properties of that core.

Go links nodes and edges by pointers. The model keeps them in an arena:

- `Graphs.Graph` is a class whose fields are the graph's attributes, its
  type, and two tables, `nodes: map<string, Node>` and
  `edges: map<string, Edge>`;
- a node records the IDs of its edges, and an edge records the IDs of its
  endpoints;
- `Nodes.Linked` states that the tables are consistent;
- `Graphs.Symmetric` states that incidence agrees in both directions.

Attribute values are the datatype `Attributes.Value`: string, int, float,
bool, nil, any other hashable value, and an unhashable value (a slice, map or
func, which Go cannot use as a map key). A store is a `map<string, Value>`.

Files:

- `wrappers.dfy`: `Option` and `Result`.
- `attr.dfy` (module `Attributes`): the attribute store.
- `edge.dfy` (module `Edges`): `NewEdge` and the synthesised edge ID.
- `node.dfy` (module `Nodes`): `NewNode`, `Adj` and the linking invariant.
- `order.dfy` (module `Ordering`): the order that `IterNodes` sorts by, a
  total order on each sortable kind.
- `algo_bfs.dfy` (module `Bfs`): the search on the node and edge tables.
  It is proved against a specification of hop distances, built from the
  layered sets `Within(k)` of nodes at most k hops from the root.
- `graph.dfy` (module `Graphs`): the `Graph` class and its operations.

`IterNodes` takes a callback. It is modelled as a total function
`(seq<string>, Node) -> Reply`. The first argument is the list of IDs
already visited, which stands in for whatever state a Go closure keeps (a
counter, say). `Drive` is the transcript of calling it along an order.

## Model

| member | source | states |
|---|---|---|
| Attributes.NewAttributeCollection | attr.go:7-10 | a new store holds no name and has count 0 |
| Attributes.BuildAttributes | attr.go:12-16 | the store built from a template has the template's count and answers every lookup as the template does |
| Attributes.Count | attr.go:19-21 | the count is the number of distinct names held |
| Attributes.Get | attr.go:24-27 | the flag is true exactly when the name is present; the value is then the stored one, and nil otherwise |
| Attributes.Contains | attr.go:35-38 | presence agrees with the flag of Get |
| Attributes.Set | attr.go:30-32 | afterwards the name maps to the value and every other name is unchanged; the count grows by one exactly when the name was new |
| Attributes.Remove | attr.go:53-55 | afterwards the name is absent and every other name is unchanged; a missing name leaves the store equal; the count drops by one exactly when the name was present |
| Attributes.Merge | attr.go:41-50 | the error is nil, and the result follows the per-name rule: with override every name of items takes the value from items; without it only missing names are added; all other names keep their values |
| Attributes.MergeStep | attr.go:43-47 | one round of the merge loop handles one more name of items and keeps the loop invariant |
| Attributes.MergedIsRule | attr.go:44-46 | a store equals the biased map union exactly when it satisfies the per-name rule, in both directions |
| Attributes.MergeNothing | attr.go:42 | merging a nil or empty items map leaves the store as it is |
| Edges.JoinSnoc | edge.go:39 | appending one more endpoint adds "-" and its ID to the join |
| Edges.JoinNonEmpty | edge.go:36-40 | the join of non-empty IDs is non-empty |
| Edges.FoldIdIsJoin | edge.go:34-42 | with non-empty node IDs, the ID built by the synthesis loop is the IDs joined by "-" in the given order |
| Edges.NewEdge | edge.go:19-59 | the edge is made exactly when there are at least two endpoints and any explicit "id" is non-empty; the error otherwise is the endpoint-count message, which overrides the invalid-id one; the endpoints are the distinct IDs given; an explicit id becomes the edge ID and is removed from the attributes; otherwise the ID is the synthesised join |
| Nodes.NewNode | node.go:19-32 | a node is made exactly when the ID is non-empty, with that ID, no attributes and no edges; otherwise the result is the invalid-id error |
| Nodes.EdgesViaStep | node.go:39-45 | scanning one more incident edge adds one occurrence of v exactly when v is another endpoint of that edge |
| Nodes.AppendOthers | node.go:40-44 | the inner loop adds every endpoint except the node itself exactly once |
| Nodes.CountedNeighbours | node.go:34-48 | a list with those multiplicities contains exactly the neighbours |
| Nodes.Adj | node.go:34-48 | each neighbour occurs once for each incident edge that connects it; the list holds exactly the neighbours, never the node itself, and is empty for a node without edges |
| Ordering.StrLeRefl | graph.go:128-132 | string order is reflexive |
| Ordering.StrLeTotal | graph.go:128-132 | string order is total |
| Ordering.StrLeTrans | graph.go:128-132 | string order is transitive |
| Ordering.StrLeAntisym | graph.go:128-132 | string order is antisymmetric |
| Ordering.LeRefl | graph.go:125-150 | the value order is reflexive on strings, ints and floats |
| Ordering.LeTotal | graph.go:125-150 | any two values of one sortable kind are comparable |
| Ordering.LeAntisym | graph.go:125-150 | the value order is antisymmetric |
| Ordering.LeTrans | graph.go:125-150 | the value order is transitive |
| Ordering.LeastExists | graph.go:150 | a non-empty finite set of values of one sortable kind has a least element |
| Ordering.LeastInsert | graph.go:150 | adding one value to a set with a least element leaves a least element |
| Bfs.WithinMono | algo_bfs.go:47-67 | the set of nodes within i hops is contained in the set within j hops when i <= j |
| Bfs.WithinNodes | algo_bfs.go:56-63 | every node reached lies in the node table |
| Bfs.ShortestBelow | algo_bfs.go:47-67 | a shortest distance d is at most any k within which the node lies |
| Bfs.HopDistanceUnique | algo_bfs.go:38-59 | the distance a node must receive is unique |
| Bfs.RootAtZero | algo_bfs.go:44 | the root's distance is 0 |
| Bfs.Predecessor | algo_bfs.go:55-61 | a node at distance d > 0 has a neighbour-predecessor at distance d - 1 |
| Bfs.RecordedPredecessor | algo_bfs.go:53-61 | in a table of hop distances, a node with recorded distance d > 0 has a neighbour-predecessor whose recorded distance is d - 1 |
| Bfs.ShortestRecorded | algo_bfs.go:59 | the recorded distance of a node equals its shortest-path length |
| Bfs.NeighbourDistance | algo_bfs.go:56-62 | the distance of a neighbour is at most one more than that of the node |
| Bfs.Upper | algo_bfs.go:57-61 | a discovered node lies within its recorded distance, by the parent chain |
| Bfs.Lower | algo_bfs.go:47-67 | once the search ends, every node within k hops is discovered with a distance of at most k |
| Bfs.Certified | algo_bfs.go:47-67 | at the end, every recorded distance is the hop distance, and a node is reachable exactly when it was discovered |
| Bfs.Visit | algo_bfs.go:57-62 | a white neighbour turns gray, gets distance dist(u) + 1 and is queued; the frontier invariant is kept; discovered nodes keep their colour and distance |
| Bfs.VisitParented | algo_bfs.go:57-61 | discovering v from u keeps every discovered non-root node's parent discovered and one hop closer |
| Bfs.Discover | algo_bfs.go:56-63 | after the scan of Adj(u), no neighbour of u is white, and the frontier invariant and the queue-size balance are kept |
| Bfs.Neighbours | algo_bfs.go:56 | the list of Adj holds exactly the neighbours, all in the node table |
| Bfs.NbrInNodes | algo_bfs.go:56 | a neighbour is in the node table |
| Bfs.Start | algo_bfs.go:35-48 | the initial colouring (root gray at 0, all others white at -1), with the root queued, satisfies the search invariant |
| Bfs.Pop | algo_bfs.go:49-50 | dequeuing the head gives the frontier state for that node |
| Bfs.Expand | algo_bfs.go:53-64 | all neighbours of the dequeued node are discovered, and the search invariant is kept |
| Bfs.Finish | algo_bfs.go:66 | blackening the node keeps every black node's neighbours discovered, at most one hop further |
| Bfs.Close | algo_bfs.go:66 | the state after blackening satisfies the search invariant, with the queue's two levels updated |
| Bfs.Step | algo_bfs.go:48-67 | one round keeps the search invariant and removes exactly one node from the white set plus queue |
| Bfs.Done | algo_bfs.go:48 | an empty queue yields the certificate of the distances |
| Bfs.Search | algo_bfs.go:28-76 | every node gets its hop distance from the root, 0 for the root and -1 exactly for the unreachable nodes; the loop runs at most one round per node |
| Graphs.AttachedLinked | edge.go:49-53 | registering an edge whose endpoints are in the node table keeps the tables linked |
| Graphs.AttachedSymmetric | edge.go:49-53 | registering an edge under a fresh ID keeps incidence symmetric |
| Graphs.Register | edge.go:50-53 | the loop adds the edge ID to the incidence set of exactly the given endpoints and changes nothing else |
| Graphs.ConnectedProperties | graph.go:81-98 | connection is symmetric, and a node is connected to itself exactly when it lies on an edge |
| Graphs.Spans | graph.go:84-98 | the endpoint scan reports true exactly when both nodes are endpoints |
| Graphs.DriveSpec | graph.go:152-165 | iteration calls the callback on a prefix of the order; every call but the last continued without error; it stops after the first call that fails or declines and reports that call's error; without a stop all nodes are visited and the error is nil |
| Graphs.DriveSpecStep | graph.go:156-164 | offering one more node keeps that description |
| Graphs.AllVisited | graph.go:152-165 | a callback that always continues is called on every node of the order |
| Graphs.DriveSnoc | graph.go:156-160 | offering the order plus one node is offering the order and then that node |
| Graphs.DriveStopped | graph.go:157-164 | once iteration has stopped, later nodes change nothing |
| Graphs.FirstDeclineStops | graph.go:157-158 | a first call that declines to go on is the only call |
| Graphs.CountingCallbackStopsAtOnce | load_test.go:245-266 | the counting callback of the test, which returns count > 3, is called once |
| Graphs.FlattenSnoc | graph.go:153-156 | the groups of one more value extend the visiting order by that group |
| Graphs.FlattenPrefix | graph.go:153-156 | the groups of a prefix of the values are a prefix of the visiting order |
| Graphs.FlattenOrdered | graph.go:150-156 | the groups of strictly ascending values visit each carrier of those values once, by non-decreasing value |
| Graphs.MembersSnoc | graph.go:153-156 | appending one group keeps "exactly the members of the groups so far" |
| Graphs.SortedSnoc | graph.go:150-156 | appending the group of a larger value keeps the order sorted and free of repeats |
| Graphs.SortedGroups | graph.go:118-156 | the groups of all carried values in ascending order contain every carrier once, by non-decreasing value |
| Graphs.SortValues | graph.go:150 | the sorted values are exactly the given ones, in strictly ascending order |
| Graphs.Graph.constructor | graph.go:38-47 | a new graph has the given type and empty attributes, nodes and edges, and is linked and symmetric |
| Graphs.Graph.AddNode | graph.go:49-56 | a valid ID stores NewNode's node under it, replacing any earlier one; an invalid ID changes nothing; edges are untouched; symmetry is kept unless a node that had edges is replaced |
| Graphs.Graph.AddEdge | graph.go:58-71 | the outcome and error are those of NewEdge; a made edge is stored under its ID and registered with every endpoint; a failure changes nothing; the tables stay linked, and symmetry is kept when the edge ID is fresh |
| Graphs.Graph.HasConnection | graph.go:73-110 | on an undirected graph, the result is whether some edge has both nodes as endpoints; any other type gives "Unknown graph type: " plus the type, with a false result |
| Graphs.Graph.IterNodes | graph.go:112-169 | a nil callback is an error with no calls; a carried value that is hashable but not a string, int or float64 is the non-sortable error with no calls; an unhashable carried value panics at graph.go:121, which is a precondition; otherwise the calls follow the order of all carriers by ascending value, as described by DriveSpec, and the error is the last call's |
| Graphs.Graph.BFSd | algo_bfs.go:22-26 | BFS with the attribute "d" |
| Graphs.Graph.BFS | algo_bfs.go:28-76 | every node's value attribute becomes an int holding its hop distance from the root, -1 when unreachable; no other attribute, node, edge or graph field changes; the error is nil |
| Graphs.LabelAll | algo_bfs.go:33-73 | every node in the table gains the attribute holding its hop distance; otherwise the table is unchanged and stays linked |
| Graphs.WriteDistances | algo_bfs.go:59 | the write loop leaves every node carrying its distance under the attribute, and nothing else changed |
| Graphs.LabelledStep | algo_bfs.go:59 | labelling one more node is one Set on that node's store |
| Graphs.LabelledDistances | algo_bfs.go:59 | once all nodes are labelled, each carries its hop distance and nothing else changed |
| Graphs.LabelledLinked | algo_bfs.go:69-73 | labelling changes only attributes, so the tables stay linked |
| Graphs.GroupCarriers | graph.go:118-123 | every node carrying the attribute is in the group of its value, once; groups are non-empty and hold only carriers; an unhashable value, which panics as a map key, is a precondition |
| Graphs.GroupStep | graph.go:120-121 | appending a carrier to its value's group keeps the grouping |
| Graphs.GroupSkip | graph.go:120 | a node without the attribute leaves the grouping unchanged |
| Graphs.SortableKeys | graph.go:125-147 | the values collected are exactly the sortable keys; the error is nil exactly when every key is sortable, and otherwise it is the non-sortable message |
| Graphs.Walk | graph.go:152-165 | the calls made and the error returned are those of the transcript along the groups in sorted order |
| Graphs.Offer | graph.go:156-164 | calling back on one group gives the transcript over that group's prefix up to the stopping call; if there is no stop, the whole group is offered |
| Graphs.FlattenIn | graph.go:153-156 | the visiting order holds only IDs of the node table |
| Graphs.CarriedKeys | graph.go:118-123 | the keys of a complete grouping are exactly the carried values |

## Left out

- The JSON loader (`json.go`) and file input are not part of this model.
- Go map iteration order is unspecified.
  - Loops over maps (Merge, the grouping, the distance writes of Graphs.WriteDistances) pick an arbitrary remaining key.
- Nodes.Adj states each neighbour's multiplicity, not the order.
  - The order follows Go map iteration.
- Bfs.Search handles neighbours in the order Adj returns them. The distances do not depend on that order.
- BFS keeps its colour, distance and predecessor bookkeeping in maps local to the search. The Go code writes them into scratch attributes under random 48-letter names.
  - Randomness is left out.
  - A clash between a random name and an existing attribute is assumed not to happen.
- Predecessors are ghost. The source stores each one and then removes it.
  - `Bfs.RecordedPredecessor` states the property they witness.
- Graphs.Graph.BFS writes only the final distances.
  - The order of the in-place attribute writes during the search is not modelled.
  - Only the resulting stores are.
- Attribute stores are values.
  - Go shares maps by reference. Sharing between callers and the graph is not modelled.
- Attributes.BuildAttributes copies the template, where Go shares it with the caller.
- Edges.NewEdge returns its stored attributes without "id". Go also deletes "id" from the caller's own map, because the map is shared.
- Pointer identity is not modelled.
  - Go can leave stale pointers when a node or edge is replaced under an existing ID.
  - The model follows IDs instead.
  - `Graphs.Symmetric` is the invariant that holds while no replacement happens.
- Graphs.Graph.BFS and Nodes.Adj follow IDs, so after a replacement they differ from Go.
  - Example: AddNode("a"), AddNode("b"), AddEdge({}, ["a", "b"]), AddNode("a") again, then BFS("b").
  - Go's b.Adj() returns the old "a" object, which has no colour attribute (algo_bfs.go:57), so the new "a" keeps -1.
  - The model looks "a" up by ID and records 1.
  - The BFS contract states the ID semantics. The replacement that causes the difference also breaks `Graphs.Symmetric`, which AddNode keeps only when the replaced node had no edges.
- Graphs.Graph.AddNode promises symmetry only when the replaced node had no edges.
- Graphs.Graph.AddEdge promises symmetry only for a fresh edge ID.
- Go panics are preconditions.
  - A non-string "id" attribute in NewEdge, which panics at the type assertion of edge.go:28.
  - An unknown endpoint ID, as a nil node, in AddEdge.
  - A BFS root that is not in the graph.
  - In IterNodes, carried values of two sortable kinds.
  - In IterNodes, a non-nil callback when no node carries the attribute (`sort.Sort(nil)`).
  - In IterNodes, an unhashable carried value (a slice, map or func), which panics when it is used as a key of nodeMap (graph.go:121).
- Graphs.SortValues is specified by its result: the distinct values, ascending. It is not a model of the `sort.Sort` algorithm.
- Float values are real numbers: NaN and the float64 order on NaN are not modelled.
- Go's `int` is unbounded here: 64-bit overflow of distances cannot happen for graphs that fit in memory.
- Callbacks have no side effects on the graph.
  - A callback that mutates the graph during IterNodes is not modelled.
- The error result of NewGraph is always nil and is not modelled.
- The test in load_test.go:245-266 expects two callback calls.
  - Under the code, iteration stops at the first reply with `cont` false, so the callback is called once.
  - `Graphs.CountingCallbackStopsAtOnce` states that outcome.
  - The model follows the code.
- The `break` in the `default` case of the type switch (graph.go:145) leaves only the switch.
  - The key loop goes on, and the error stays set.
  - Graphs.SortableKeys models exactly that.
- Directed graphs have no behaviour of their own in the core.
  - HasConnection rejects them.
  - BFS ignores the graph type.
