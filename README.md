# Ford-Fulkerson (Edmonds-Karp) max flow, modelled in Dafny

The repository computes a maximum flow with the Ford-Fulkerson method. It
finds augmenting paths by breadth-first search (Edmonds-Karp). This project
models its three core classes, in two files.

- `network.dfy` (module `Network`) holds `Vertex` and `Edge`. They are
  classes because the solver changes them in place.
  - A `Vertex` has a one-character name and an ordered edge list.
  - An `Edge` has two ends, a constant capacity and a mutable flow. Its
    methods are `GetOther`, `GetResidualCapacity` and `AddResidualFlowTo`,
    and `ToStringPrefix` gives the first two characters of `toString()`.
- `maxflow.dfy` (module `MaxFlow`) holds the class `FordFulkerson`. Its
  fields are `marked`, `edgeTo` and `maxFlow`. Its constructor is the
  solver loop; `IsInCut` and `GetMaxFlow` are the queries.

The network is handed to the solver as two ghost parameters: the set of its
vertices and the sequence of its edge objects. `Wellformed` states what the
solver is given:
- one vertex object per name;
- every edge ends at network vertices;
- capacities are non-negative Java ints, and flows lie within them;
- every edge a vertex lists is a network edge that ends at that vertex.

The graph builder guarantees all of these except non-negative capacities.
`Integer.parseInt` also accepts a negative number (see "Left out").

Two behaviours of the code are modelled as written:

- **The bottleneck is broad.** It is the minimum residual capacity over
  every entry of `edgeTo`, which is the whole search tree, not just the path
  from `t` back to `s` (`Bottleneck`).
- **Edges come in two copies.** The graph builder gives each end of an input
  line its own `Edge` object. After pushing flow through `edgeTo.get(v)`,
  the solver removes from `v`'s list the first edge whose `toString()` has
  the same two-character prefix, then appends `edgeTo.get(v)`
  (`Rewritten`, `ReplaceByPrefix`). With one-character names that prefix is
  the from name and a dash, so the match looks at the from end only
  (`PrefixMatchIsSameFrom`, `RewriteMatchesFromNameOnly`).

The model keeps state as values alongside the heap:
- `Lists` maps each vertex to its edge list;
- `FlowMap` maps each edge object to its flow.

The walk back from `t` to `s` is specified against pure functions of those
values (`ListsAfterWalk`, `FlowsAfterWalk`), and lemmas say what those
functions do:
- each path vertex has its list rewritten with its tree edge;
- the tree edge of each path vertex has `minValue` pushed toward that vertex;
- every other list and flow is unchanged.

The outer loop terminates. The measure is the net flow out of `s` over all
edge objects (`NetOut`): each round raises it by `minValue`, which is at
least 1, and the total capacity at `s` bounds it (`CapOut`).

When the solver finishes:
- `marked` is a search tree rooted at `s` that does not contain `t`;
- `marked` is closed: no edge listed by a marked vertex has residual
  capacity toward an unmarked vertex;
- `marked` is exactly the set of vertices a residual path from `s` reaches.
  Each `edgeTo` entry is an edge listed by the vertex it leads back to, and
  it has residual capacity toward its own vertex;
- every flow still lies within its capacity;
- `maxFlow` equals the growth of the net flow out of `s`.

A ghost field `order` records the order in which the last search marked each
vertex. It is what shows that the walk back along `edgeTo` reaches `s`.

## Model

| member | source | states |
|---|---|---|
| Network.Vertex.constructor | Vertex.java:9-12 | a new vertex has the given name and an empty edge list |
| Network.Vertex.GetEdgeList | Vertex.java:14-16 | the vertex's own edge list, in the order AddEdge appended its entries |
| Network.Vertex.AddEdge | Vertex.java:18-20 | the edge is appended at the end; earlier entries are unchanged and there is no duplicate check |
| Network.Vertex.Equals | Vertex.java:22-27 | two vertices are equal exactly when their names are equal (the identity shortcut included) |
| Network.Vertex.HashCode | Vertex.java:29-31 | the hash is never negative and below 0x110000; that the value is the name's character code comes from the body, not the contract |
| Network.Vertex.ToString | Vertex.java:33-35 | a vertex prints as a string of length one; that the character is the name comes from the body, not the contract |
| Network.Edge.constructor | Edge.java:8-13 | a new edge has the given ends and capacity and carries no flow |
| Network.Edge.GetOther | Edge.java:19-21 | the result is an end; a vertex not equal to the from end gets the from end; the from end of an edge with two different ends gets the other end |
| Network.Edge.GetResidualCapacity | Edge.java:50-52 | toward the from end it is the flow, otherwise the capacity minus the flow; it lies in [0, capacity] while the flow does |
| Network.Edge.AddResidualFlowTo | Edge.java:82-84 | flow changes by Delta: down by deltaFlow toward the from end, up otherwise; the residual capacity toward the vertex drops by deltaFlow and toward the other end (when the ends have different names) rises by it; a push within the residual capacity keeps 0 <= flow <= capacity |
| Network.Edge.ToStringPrefix | Edge.java:86-88 | the first two characters of toString() are the from name and '-' |
| Network.GetOtherOfOther | Edge.java:19-21 | in a network with one vertex per name, getOther from an end leads to the other end of the edge and back again |
| Network.ResidualsAddUp | Edge.java:50-52 | the residual capacities toward the two ends add up to the capacity |
| Network.EqualsIsConsistent | Vertex.java:22-31 | equals is reflexive and symmetric, and equal vertices have equal hash codes |
| Network.EqualsIsIdentity | Vertex.java:22-27 | with one vertex object per name, equals is object identity, which is what lets HashSet and HashMap become Dafny sets and maps |
| Network.PrefixMatchIsSameFrom | Edge.java:86-88 | two edges have the same toString() prefix exactly when their from ends have the same name |
| Network.EdgeExamples | Edge.java:40-76 | the documented examples: with capacity 10 and flow 6 the residual is 6 toward A and 4 toward B; pushing 3 toward A leaves 3, pushing 2 toward B leaves 8 |
| Network.AddEdgeTwiceExample | Vertex.java:9-20 | a new vertex has no edges, and adding one edge twice gives two entries that are both that edge |
| MaxFlow.IndexOfPrefix | FordFulkerson.java:70-75 | the position where the scan of the edge list stops: the first entry with the key as prefix, or the length when there is none |
| MaxFlow.Rewritten | FordFulkerson.java:70-77 | the rewritten list ends with the tree edge; its length is unchanged when an entry matched and one greater otherwise; it holds only old entries and the tree edge, and keeps every old entry whose prefix differs |
| MaxFlow.RewrittenCutsAtFirstMatch | FordFulkerson.java:70-77 | the rewritten list is the old one with the first prefix match cut out, if there is one, followed by the tree edge |
| MaxFlow.RewriteMatchesFromNameOnly | FordFulkerson.java:72 | when the first listed edge has the same from name as the tree edge, that entry is the one removed, whatever its to end |
| MaxFlow.FindPrefix | FordFulkerson.java:70-75 | the inner loop stops at IndexOfPrefix of v's list: no earlier entry has the key as prefix, and the entry there has it unless the loop ran off the end |
| MaxFlow.IndexOfPrefixIs | FordFulkerson.java:70-75 | any position before which no entry has the key as prefix, and at which one has it or the list ends, is IndexOfPrefix |
| MaxFlow.ReplaceByPrefix | FordFulkerson.java:70-77 | the inner loop and addEdge leave v's list rewritten (Rewritten); no other list and no flow changes |
| MaxFlow.NetOutBounded | FordFulkerson.java:32 | while every flow is within its capacity, the net flow out of s is at most the capacity at s |
| MaxFlow.NetOutWithin | FordFulkerson.java:32 | in a consistent network the net flow out of s is at most the capacity at s, which bounds the outer loop |
| MaxFlow.NetOutOfUpdate | FordFulkerson.java:68 | changing the flow of one edge changes the net flow out of s by that edge's share only |
| MaxFlow.ClosedTrapsPath | FordFulkerson.java:131-152 | a residual path that starts in a marked set closed under residual edges stays in it |
| MaxFlow.TreeGrows | FordFulkerson.java:144-147 | recording edgeTo[other] and marking other keeps edgeTo a search tree, with other ranked newest |
| MaxFlow.QueueStep | FordFulkerson.java:131-147 | after one poll and scan, the queue still holds only marked vertices, and every marked vertex has been polled or is still queued |
| MaxFlow.RecordedGrows | FordFulkerson.java:140-145 | recording the scanned edge for its other end keeps every edgeTo entry an edge listed by the vertex it leads back to, with getOther leading from there to the entry's vertex |
| MaxFlow.SearchingGrows | FordFulkerson.java:140-147 | entering an unmarked end through a scanned edge with residual capacity toward it keeps the search state: a ranked tree over network vertices, with network edges that have residual capacity and are recorded |
| MaxFlow.TreeReaches | FordFulkerson.java:112-113 | from the root of a recorded search tree whose entries have residual capacity, a residual path reaches every marked vertex |
| MaxFlow.ScanRecords | FordFulkerson.java:144-145 | putting the scanned edge for a not yet marked end keeps the earlier entries and records that end with an edge of the scanned list leading to it |
| MaxFlow.ScanEdges | FordFulkerson.java:137-152 | scanning the list of current records, marks and enqueues each unmarked end with residual capacity toward it; entries found before the scan are kept, and each newly marked vertex is recorded with an edge of current's list that getOther leads from current to it; afterwards current is explored, the old queue is a prefix of the new one, and the new vertices are exactly the new part of the queue |
| MaxFlow.Search | FordFulkerson.java:122-153 | the search ends with a tree rooted at s that is marked before every entry: every marked vertex except s has an edgeTo entry, each entry has residual capacity toward its vertex and is listed by the vertex it leads back to, and every edgeTo key is marked; when t is not reached, every marked vertex has been fully scanned |
| MaxFlow.TreePath | FordFulkerson.java:67 | the path from x back to s uses only edgeTo keys ranked no later than x, and contains x unless x is s |
| MaxFlow.ListsAfterWalkAt | FordFulkerson.java:67-78 | after the walk back, each path vertex has its list rewritten with its tree edge and every other list is unchanged |
| MaxFlow.FlowsAfterWalkOnPath | FordFulkerson.java:67-68 | after the walk back, the tree edge of each path vertex has had minValue pushed toward that vertex, so its residual capacity toward it is minValue lower |
| MaxFlow.FlowsAfterWalkOffPath | FordFulkerson.java:67-68 | after the walk back, an edge that is the tree edge of no path vertex keeps its flow |
| MaxFlow.SourceOutflowStep | FordFulkerson.java:67-68 | one push changes the net flow out of s by minValue exactly when the walk steps onto s |
| MaxFlow.ConsistentStep | FordFulkerson.java:67-78 | a push within the residual capacity followed by the list rewrite keeps the network consistent |
| MaxFlow.WalkingStep | FordFulkerson.java:67-78 | one step of the walk back moves it to the parent vertex and keeps the network part of its invariant: the network stays consistent, and the rest of the walk leads to the same final lists and flows |
| MaxFlow.WalkingStepOutflow | FordFulkerson.java:67-68 | after one step of the walk back, the remaining tree edges still have room for minValue toward their vertex, and the net flow out of s has grown by minValue once s is reached |
| MaxFlow.PushFlow | FordFulkerson.java:68 | addResidualFlowTo on the tree edge changes only its flow, keeps it within capacity, and changes the net flow out of s by that edge's share |
| MaxFlow.PushToward | FordFulkerson.java:68-77 | one step of the walk back changes exactly the list of v and the flow of its tree edge |
| MaxFlow.Augment | FordFulkerson.java:67-78 | the walk from t back to s leaves the lists and flows given by ListsAfterWalk and FlowsAfterWalk, keeps the network consistent, and raises the net flow out of s by exactly minValue |
| MaxFlow.FordFulkerson.constructor | FordFulkerson.java:30-84 | the solver terminates with a wellformed network; marked is a search tree from s that does not contain t, is closed under residual edges and is reached by residual paths along its recorded edgeTo entries; maxFlow is the growth of the net flow out of s |
| MaxFlow.FordFulkerson.AugmentPath | FordFulkerson.java:33-82 | one round takes minValue as the minimum residual capacity over every edgeTo entry (or Integer.MAX_VALUE), adds it to maxFlow, and leaves the lists and flows given by ListsAfterWalk and FlowsAfterWalk of the old ones; minValue is positive, the net flow out of s grows by it, and the network stays consistent |
| MaxFlow.FordFulkerson.IsInCut | FordFulkerson.java:94-96 | a vertex is in the cut exactly when it is marked; the source is in, the sink is out, and every edge a vertex in the cut lists with residual capacity toward its other end leads into the cut |
| MaxFlow.FordFulkerson.InCutIffReachable | FordFulkerson.java:86-96 | once the solver is done, a vertex is in the cut exactly when a residual path from the source reaches it |
| MaxFlow.FordFulkerson.NoAugmentingPath | FordFulkerson.java:121-156 | once the solver is done, no residual path from the source reaches the sink |
| MaxFlow.FordFulkerson.GetMaxFlow | FordFulkerson.java:104-106 | the returned flow value is never negative |
| MaxFlow.FordFulkerson.HasAugmentingPath | FordFulkerson.java:121-157 | the search replaces marked and edgeTo by a search tree from s; each entry has residual capacity toward its vertex and is listed by the vertex it leads back to; the result is true exactly when t is marked; when it is false the marked set is closed; the network and maxFlow are unchanged |
| MaxFlow.FordFulkerson.Bottleneck | FordFulkerson.java:33-49 | minValue is the minimum residual capacity over every edgeTo entry: at most each of them, and either equal to one of them or Integer.MAX_VALUE (which it is when edgeTo is empty) |

## Left out

- System.out tracing (FordFulkerson.java:81, 143, 148-149, 155) has no effect on state and is not modelled.
- The commented-out loops (FordFulkerson.java:36-43, 52-65) are not code.
- Main.java is not part of this model: file reading, argument handling and printing are I/O. What `getGraph` builds appears only as the `Wellformed` precondition of the constructor.
- MaxFlow.FordFulkerson.constructor: does not model Java `int` overflow. Integers are unbounded and capacities are required to be Java ints, so a sum of flows beyond `Integer.MAX_VALUE` would wrap in Java but not here.
- HashMap and HashSet internals are not modelled: `marked` is a set and `edgeTo` a map. `Bottleneck` picks the keys of `edgeTo` in an arbitrary order, and a minimum does not depend on it.
- Vertex names are single characters (`char`). The source uses `String` names, and its prefix match relies on them being one character long.
- The general `toString` format of an edge ("from-to flow/capacity") is not modelled beyond its first two characters.
- The unused public `marked` field of Vertex (Vertex.java:7) and the unused local `other` in the bottleneck loop (FordFulkerson.java:46) are left out.
- `equals` with `null` or an object of another class cannot be expressed, because `Equals` takes a `Vertex`.
- The solver edits the `ArrayList` that `getEdgeList()` returns. The model writes the vertex's `edgeList` field directly, which has the same effect because that list is the field.
- `marked` and `edgeTo` start as `null` in the source and as empty here. The constructor replaces both before anything reads them.
- The search builds `marked` and `edgeTo` in locals and stores them in the fields when it ends. The source updates the fields while it runs, but nothing reads them before the search ends.
- MaxFlow.FordFulkerson.AugmentPath: adds `minValue` to `maxFlow` before the walk back rather than after it (FordFulkerson.java:82). Only the tracing line reads `maxFlow` in between.
- MaxFlow.FordFulkerson.constructor: does not state that `maxFlow` is a maximum flow (FordFulkerson.java:15-19). The closure it proves is about the edge lists as the solver leaves them, not the input graph. The rewrite at FordFulkerson.java:72-73 matches on the from name only, so a push toward a from end can remove from that vertex's list a different edge that still carries flow. Once such an edge is gone from a list, the cut the final search sees is not a cut of the input graph. Flow conservation at the inner vertices is not proved either.
- MaxFlow.FordFulkerson.GetMaxFlow: states only that the value is never negative, not that it is the maximum flow (FordFulkerson.java:102), for the reason given for the constructor. The model proves that `maxFlow` is the growth of the net flow out of the source over all edge objects. It is the net flow itself when every flow starts at 0, as the graph builder leaves it; `Wellformed` does not demand that.
- MaxFlow.FordFulkerson.constructor: requires `s != t`. With `s == t` the Java solver never terminates: `hasAugmentingPath` returns true at once (FordFulkerson.java:127-131), `edgeTo` is empty, so `minValue` stays `Integer.MAX_VALUE` (line 33), the walk at line 67 is skipped, and `maxFlow` wraps around forever.
- MaxFlow.FordFulkerson.constructor: requires non-negative capacities (through `Wellformed`). `Integer.parseInt` at Main.java:45-46 also accepts negative numbers. Such an edge has residual capacity c < 0 forward and 0 backward, so the search never uses it, but the model's `Consistent` needs 0 <= flow <= capacity.
- Network.Vertex.HashCode: the bound 0x110000 is that of Dafny's `char`. A one-character Java name is a single UTF-16 code unit, below 0x10000; the model does not exclude names above U+FFFF.
