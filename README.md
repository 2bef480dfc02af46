# Max flow by shortest augmenting paths (algorithme-de-dinic)

The program reads a flow network: vertices 1..n, a source, a sink, and arcs
u -> v with an integer capacity. Each vertex has a successor list of arcs
(`Maillon`), and new arcs are inserted at the head. The program builds a
residual graph. Each network arc u -> v with capacity c and flow f gives two
residual arcs: u -> v with capacity c - f, and v -> u with capacity f. The
entry point then repeats one round while the residual graph has a path. Each
round:

- finds a path from the source to the sink by breadth-first search over arcs
  of positive capacity;
- computes its bottleneck, the smallest capacity along it;
- takes the bottleneck off the first arc u -> v of every step and adds it to
  the first arc v -> u;
- writes back into the network, as each arc's flow, its capacity minus the
  residual capacity of the matching residual arc;
- adds the bottleneck to the flow value.

The model follows the program's shape:

| module | file | models |
|---|---|---|
| `Network` | network.dfy | the data model of dinic.h (`Arc`, `SuccList`, `Path`, the class `Graph`), the arc lookup by destination, the empty network and arc insertion of the reader |
| `FifoQueue` | queue.dfy | the FIFO queue of dinic.c, as a class over an array |
| `ResidualGraph` | residual.dfy | buildResidualGraph: the function `Residual`, its properties, and the in-place construction loops |
| `PathSearch` | search.dfy | shortestPath: the breadth-first search over arrays `vis` and `par`, and the read-back of the path |
| `Augmentation` | augment.dfy | minCapacity and updateResidualGraph: the function `Augmented` that specifies the update, its properties, and the in-place loop |
| `FlowProjection` | projection.dfy | updateNetworkFlow: the function `Project` that specifies it, its properties, and the in-place loop |
| `MaxFlowLoop` | maxflow.dfy | the augmentation loop of `main`, its invariant and termination |

Linked lists are modelled as sequences whose first element is the head. A
graph is a class whose successor lists are an `array<SuccList>`. The
operations that update lists in place are methods with `modifies` clauses.
The methods that rewrite lists (building the residual graph, the update,
the flow write-back, the scan of one vertex's arcs) are proved equal to a
specification function of the old state (`Residual`, `Augmented`,
`Project`, `ScanList`), and the properties are proved about those
functions. The search loop is proved equal to `Bfs`, the breadth-first
exploration written as a recursive function over the queue's history, and
it also states the shortest-path facts directly. The bottleneck and the
queue state their results directly in their contracts.

## Model

| member | source | states |
|---|---|---|
| Network.Graph.constructor | algorithme-de-dinic/dinic.c:87-90 | the network as allocated has vertex count n + 1 (vertex 0 unused) and empty successor lists; its source and sink are the given ones, which the reader checks to lie in 1..n and stores at dinic.c:112-113 |
| Network.Graph.InsertHead | algorithme-de-dinic/dinic.c:104-107 | a head insertion: list x becomes the new arc followed by the old list, its counter goes up by one, and no other list changes (the same three writes as the residual insertions at dinic.c:137-140 and 141-144) |
| Network.Graph.AddArc | algorithme-de-dinic/dinic.c:104-107 | an arc line puts Arc(v, c, 0) at the head of the list of u and increments its counter; no other list changes; the graph stays well formed and all-zero flows stay zero |
| Network.FindArc | algorithme-de-dinic/dinic.c:225-227 | the position found is that of the first arc, from the head, leading to v; None exactly when no arc leads to v |
| Network.FirstArc | algorithme-de-dinic/dinic.c:244-249 | the scan that stops at the first arc with the wanted destination ends at the position FindArc gives, or at the end of the list exactly when no arc matches |
| FifoQueue.Queue.constructor | algorithme-de-dinic/dinic.c:32-38 | a new queue over n slots is empty, with head = tail = 0 |
| FifoQueue.Queue.Empty | algorithme-de-dinic/dinic.c:40-42 | the queue is empty exactly when head == tail, that is, exactly when it holds no value |
| FifoQueue.Queue.Push | algorithme-de-dinic/dinic.c:44-46 | appends v at the tail; pushing past the capacity is excluded by the precondition; the contents become the old contents followed by v |
| FifoQueue.Queue.Pop | algorithme-de-dinic/dinic.c:48-50 | a non-empty queue gives its oldest value and keeps the rest in order |
| FifoQueue.FifoOrder | algorithme-de-dinic/dinic.c:27-55 | one interleaving (push a, push b, pop, push c, pop, pop) gives a, b, c; the general order is the `Contents` contracts of Push and Pop |
| ResidualGraph.BuildResidualGraph | algorithme-de-dinic/dinic.c:125-148 | a fresh graph with the same vertex count, source and sink whose lists are `Residual` of the network; the network is not modified |
| ResidualGraph.EmitVertices | algorithme-de-dinic/dinic.c:132-146 | the outer loop over u = 1..n-1 turns the empty lists into `Residual` of the network |
| ResidualGraph.EmitOne | algorithme-de-dinic/dinic.c:132-145 | one turn u of the outer loop: the lists that held the residual arcs of the network arcs out of 1..u-1 now hold those out of 1..u, in the order the insertions leave them |
| ResidualGraph.EmitVertex | algorithme-de-dinic/dinic.c:133-145 | the inner loop over the arcs of u inserts, per arc, the forward arc at the head of the list of u, then the backward arc at the head of the list of v |
| ResidualGraph.EmitArc | algorithme-de-dinic/dinic.c:134-144 | one arc u -> v with capacity c and flow f: Arc(v, c - f, 0) goes to the head of the list of u, then Arc(u, f, 0) to the head of the list of v |
| ResidualGraph.ResidualShape | algorithme-de-dinic/dinic.c:125-148 | the residual graph of a well-formed network is well formed and has exactly twice as many arcs |
| ResidualGraph.ResidualHasTwins | algorithme-de-dinic/dinic.c:135-144 | every network arc u -> v with capacity c and flow f has a residual arc u -> v with capacity c - f and a residual arc v -> u with capacity f |
| ResidualGraph.ResidualOrigin | algorithme-de-dinic/dinic.c:135-144 | every residual arc is the forward or the backward image of some network arc |
| ResidualGraph.ResidualConserves | algorithme-de-dinic/dinic.c:135-144 | for a simple network, each ordered pair has at most one residual arc; for every network arc, the first residual arc u -> v has capacity c - f, the first v -> u has f, and the two add up to c |
| ResidualGraph.ResidualSymmetric | algorithme-de-dinic/dinic.c:137-144 | in the residual graph, an arc x -> y always comes with an arc y -> x, since each network arc gives both |
| ResidualGraph.ResidualNonNegative | algorithme-de-dinic/dinic.c:135-136 | when 0 <= f <= c on every network arc, no residual capacity is negative |
| ResidualGraph.ResidualCapacity | algorithme-de-dinic/dinic.c:135-136 | the residual capacities add up to the network capacities |
| PathSearch.ShortestPath | algorithme-de-dinic/dinic.c:156-193 | a path is returned exactly when some walk from the source to the sink uses arcs of positive capacity; it starts at the source, ends at the sink, uses such arcs, repeats no vertex, its count equals its length, and no such walk has fewer vertices; which path it is, is fixed: a path is returned exactly when `Bfs` from the set-up reaches the sink, and it is the read-back of the parents `Bfs` leaves; the graph is only read |
| PathSearch.Explore | algorithme-de-dinic/dinic.c:157-178 | the search loop ends with exactly the found flag, marks and parents that `Bfs` computes from the set-up (queue in FIFO order, each list scanned from its head, the first mark of a vertex kept); these form a parent tree rooted at the source; when it reaches the sink, the sink is marked and no walk to it has fewer vertices than its distance in the tree plus one; otherwise the marked set is closed under arcs of positive capacity and does not contain the sink |
| PathSearch.ReadBackUnique | algorithme-de-dinic/dinic.c:183-189 | the parent records determine the read-back: two paths that both end at the sink, start at a vertex with parent -1 and have each vertex's parent before it are equal |
| PathSearch.StartSearch | algorithme-de-dinic/dinic.c:158-165 | set-up: the marks are false except at the source, the queue holds exactly the source, and its parent is -1 |
| PathSearch.ScanArcs | algorithme-de-dinic/dinic.c:170-177 | scanning the arcs of u leaves the marks, the parents and the queue as `ScanList` gives them from the old marks and parents; the search invariant is kept, and the queue never overflows its n slots |
| PathSearch.ScanOne | algorithme-de-dinic/dinic.c:171-176 | one arc j of u leading to v: when v is unmarked and the arc has positive capacity, the marks become the old ones with v set, the parents the old ones with u at v, and v is pushed; otherwise marks, parents and queue are unchanged; the scan state moves on to the next arc |
| PathSearch.ScanListPushed | algorithme-de-dinic/dinic.c:170-177 | the scan pushes each destination that is unmarked and reached from u over an arc of positive capacity, once, and nothing else |
| PathSearch.ScanListMarks | algorithme-de-dinic/dinic.c:170-177 | the scan marks exactly the vertices it pushes, gives exactly them u as parent, and leaves the other marks and parents as they were |
| PathSearch.Visit | algorithme-de-dinic/dinic.c:172-176 | v becomes marked, its parent becomes u and it is pushed; nothing else changes, and the search invariant is kept |
| PathSearch.MarkStep | algorithme-de-dinic/dinic.c:172-176 | marking a new successor of the vertex being expanded keeps the parent tree, the queue order and the two-layer shape of the queue, and there was room in the queue |
| PathSearch.WalkWithinLayers | algorithme-de-dinic/dinic.c:167-177 | when the sink is about to leave the queue, every vertex i steps along a walk from the source, for i up to the sink's distance, is marked at distance at most i |
| PathSearch.SinkAtShortest | algorithme-de-dinic/dinic.c:169 | when the sink leaves the queue, no walk from the source reaches it in fewer steps than its distance in the parent tree |
| PathSearch.NoWalkOutOfClosed | algorithme-de-dinic/dinic.c:180 | no walk over arcs of positive capacity leaves a closed marked set, so returning NULL is right |
| PathSearch.TracePath | algorithme-de-dinic/dinic.c:182-189 | the path read back from the parent records is an augmenting path from the source to the sink, with one vertex more than the sink's distance; it ends at the sink, its first vertex has parent -1 and every other vertex has the one before it as parent |
| PathSearch.PathLength | algorithme-de-dinic/dinic.c:182-183 | the count up the parent records is the distance of the sink plus one |
| PathSearch.FillPath | algorithme-de-dinic/dinic.c:184-189 | filling from the last slot gives a walk from the source to the sink whose slot k holds a vertex at distance k and whose slot k - 1 holds the parent of slot k |
| PathSearch.FillStep | algorithme-de-dinic/dinic.c:187-188 | writing the vertex at distance idx into slot idx extends the filled part by one slot, and its parent is the next vertex to write, one closer to the source, or -1, and then the source has been written into slot 0 |
| PathSearch.DistinctByDistance | algorithme-de-dinic/dinic.c:187-189 | a path whose slot k holds a vertex at distance k repeats no vertex |
| Augmentation.MinCapacity | algorithme-de-dinic/dinic.c:201-213 | the result is at most INT_MAX and at most the capacity of every arc joining consecutive vertices; it equals one of them, or INT_MAX when there is none |
| Augmentation.BottleneckPositive | algorithme-de-dinic/dinic.c:201-213 | in a graph with one arc per ordered pair, the bottleneck of a walk over arcs of positive capacity is at least 1 |
| Augmentation.UpdateResidualGraph | algorithme-de-dinic/dinic.c:220-233 | the residual graph becomes `Augmented`: for each step u -> v, k off the first arc u -> v and onto the first arc v -> u |
| Augmentation.AugmentAlong | algorithme-de-dinic/dinic.c:221-232 | the loop over the steps of the path gives `Augmented` after all the steps |
| Augmentation.AugmentOneStep | algorithme-de-dinic/dinic.c:222-231 | one step takes the state after i steps to the state after i + 1 steps |
| Augmentation.AdjustFirst | algorithme-de-dinic/dinic.c:225-227 | the capacity of the first arc x -> y moves by d; nothing else changes, and nothing changes when there is no such arc |
| Augmentation.AdjustEffect | algorithme-de-dinic/dinic.c:225-230 | with one arc per ordered pair, an adjustment changes exactly the capacity of the arc x -> y and keeps every destination, flow and counter |
| Augmentation.AugmentStepEffect | algorithme-de-dinic/dinic.c:222-231 | in a graph with one arc per ordered pair, one step changes the capacity of u -> v by -k and that of v -> u by +k, and nothing else |
| Augmentation.AugmentedEffect | algorithme-de-dinic/dinic.c:220-233 | in a graph with one arc per ordered pair, after i steps every arc x -> y has moved by the net shift of the path over the pair (x, y); destinations, flows and counters are unchanged |
| Augmentation.AugmentedShape | algorithme-de-dinic/dinic.c:220-233 | the update keeps every list's length, counter, destinations and flows |
| Augmentation.AugmentKeepsInvariant | algorithme-de-dinic/dinic.c:220-233 | augmenting along an augmenting path by at most its bottleneck keeps one arc per pair, no negative capacity, and the capacities of each network arc's residual pair adding up to its capacity |
| Augmentation.SymmetricKeeps | algorithme-de-dinic/dinic.c:220-233 | the update keeps the pairing of residual arcs: every arc x -> y still comes with an arc y -> x |
| Augmentation.InnerKept | algorithme-de-dinic/dinic.c:220-233 | in a graph with one arc per ordered pair and a reverse for every arc, augmenting along a path from s to t keeps the total residual capacity out of every vertex other than s and t: an inner vertex loses k on its way out and gains k back towards its predecessor |
| Augmentation.InnerVertexKept | algorithme-de-dinic/dinic.c:222-231 | the total out of an inner vertex of the path is kept, given its arc back to its predecessor |
| Augmentation.OffPathKept | algorithme-de-dinic/dinic.c:222-231 | every capacity out of a vertex off the path is kept |
| Augmentation.SourceDrop | algorithme-de-dinic/dinic.c:220-233 | augmenting by k takes exactly k off the total residual capacity out of the source |
| FlowProjection.UpdateNetworkFlow | algorithme-de-dinic/dinic.c:240-252 | the network becomes `Project` of the residual graph over the old network; only flows are written, and the residual graph is only read |
| FlowProjection.ProjectVertex | algorithme-de-dinic/dinic.c:242-250 | each arc of one list takes as flow its capacity minus the capacity of the first residual arc with the same destination, and keeps its flow when there is none |
| FlowProjection.ProjectShape | algorithme-de-dinic/dinic.c:240-252 | projection keeps every list, counter, destination and capacity, and so keeps the network well formed |
| FlowProjection.ProjectIdempotent | algorithme-de-dinic/dinic.c:240-252 | projecting twice against the same residual graph is projecting once |
| FlowProjection.ProjectOverrides | algorithme-de-dinic/dinic.c:240-252 | when every network arc has a residual twin, a projection overwrites every flow a previous projection left |
| FlowProjection.ProjectFlows | algorithme-de-dinic/dinic.c:240-252 | when every network arc's residual pair adds up to its capacity and is non-negative, each flow written equals the backward residual capacity v -> u and lies between 0 and the capacity |
| FlowProjection.ProjectResidual | algorithme-de-dinic/dinic.c:125-148 | a simple network read back from its own residual graph is unchanged, so building the residual graph and then updating the flows is a round trip |
| MaxFlowLoop.StartBetween | algorithme-de-dinic/dinic.c:305 | right after buildResidualGraph, the loop invariant holds |
| MaxFlowLoop.RoundKeeps | algorithme-de-dinic/dinic.c:310-312 | one round keeps the loop invariant: the residual graph keeps the arcs first built and only their capacities change, one arc per pair, no negative capacity, each network arc's residual pair adding up to its capacity, the total residual capacity out of every vertex other than the source and the sink as first built (conservation of flow), the network holding the flows read back; and it takes exactly the bottleneck off the residual capacity out of the source |
| MaxFlowLoop.Round | algorithme-de-dinic/dinic.c:310-313 | the loop body computes k, at most the capacity of every arc joining consecutive path vertices and equal to one of them (or INT_MAX when there is none), in 1..INT_MAX; it leaves the residual graph `Augmented` by k along the path, keeps the invariant, and lowers the residual capacity out of the source by k |
| MaxFlowLoop.AugmentLoop | algorithme-de-dinic/dinic.c:307-315 | the loop stops exactly when no walk from the source to the sink is left; the invariant, conservation of flow included, holds at the end; each round adds its k from `Round` to the flow value, which therefore equals what left the residual capacity out of the source; there are at most as many rounds as units of flow |
| MaxFlowLoop.FlowBound | algorithme-de-dinic/dinic.c:307-315 | the flow value is at most the sum of the network capacities |
| MaxFlowLoop.Conclude | algorithme-de-dinic/dinic.c:312 | after the loop, the network keeps its arcs and capacities, and every flow lies between 0 and its capacity |
| MaxFlowLoop.MaxFlow | algorithme-de-dinic/dinic.c:304-315 | from a simple network with source other than sink, the loop terminates; the residual graph ends with the arcs it was built with and the loop invariant, so the residual capacity out of every vertex other than the source and the sink is as first built; the network ends with flows within capacity, read back from it, and arcs otherwise unchanged; no augmenting walk is left; rounds <= flow value <= total capacity |
| MaxFlowLoop.OneArcResidual | algorithme-de-dinic/dinic.c:125-148 | the network with the one arc 1 -> 2 of capacity 5 is simple, and its residual graph is Arc(2, 5, 0) out of 1 and Arc(1, 0, 0) out of 2 |
| MaxFlowLoop.OneArcOutcome | algorithme-de-dinic/dinic.c:307-315 | on that network, any final state the loop's contract allows has flow value 5 and flow 5 on the arc |
| MaxFlowLoop.OneArcFlow | algorithme-de-dinic/dinic.c:304-315 | reading that network (vertices 1..2, source 1, sink 2, arc 1 -> 2 of capacity 5) and running the loop gives flow value 5 and flow 5 on the arc |
| MaxFlowLoop.OneArcSaturated | algorithme-de-dinic/dinic.c:307-315 | on the one-arc network, a residual graph with the arcs first built, no negative capacity and no walk from 1 to 2 has capacity 0 left on 1 -> 2 |
| MaxFlowLoop.StrandedResidual | algorithme-de-dinic/dinic.c:125-148 | the network on vertices 1..3 with the one arc 1 -> 2 of capacity 5 is simple, and its residual graph is Arc(2, 5, 0) out of 1 and Arc(1, 0, 0) out of 2 |
| MaxFlowLoop.StrandedOutcome | algorithme-de-dinic/dinic.c:307-315 | on that network with source 1 and sink 3, any final state the loop's contract allows has flow value 0 and flow 0 on the arc 1 -> 2, because vertex 2 keeps its residual capacity |
| MaxFlowLoop.StrandedFlow | algorithme-de-dinic/dinic.c:304-315 | reading that network (vertices 1..3, source 1, sink 3, arc 1 -> 2 of capacity 5) and running the loop gives flow value 0 and flow 0 on the arc |
| MaxFlowLoop.SourceIsSinkRepeats | algorithme-de-dinic/dinic.c:112 | when the source is the sink, the path found is the one-vertex path, no arc is weighed, and the update leaves the residual graph as it was |

## Left out

- Reading the DIMACS file is not modelled: comment lines, the `p` line, the `n` lines and sscanf are left out, as are the exit on a missing source or sink and writing `resultat.txt`. The model keeps the empty network the reader allocates (`Graph` constructor) and its arc insertion (`AddArc`).
- Memory management is not modelled: xmalloc failing, freeGraph, freePath and queue_free. The argument-count check of main is left out too.
- Integer width: capacities, flows and the flow value are unbounded integers. A sum beyond INT_MAX in `maxFlow += k`, or in the capacity arithmetic of the update, would overflow in C. The model does not capture it.
- MaxFlow: maximality of the flow (the min-cut argument) is not proved. The contract says that no augmenting walk is left in the residual graph.
- MaxFlow: requires a simple network. That means no self loop, no two arcs u -> v, and no pair of arcs u -> v and v -> u. Without this, the first-match scans of updateResidualGraph and updateNetworkFlow can pick an arc other than the twin. The model does not describe those runs.
- MaxFlow: the final per-arc flows are constrained only by the loop invariant (each flow read back from a residual graph that keeps the arcs first built, conserves flow at every inner vertex and has no augmenting walk left), not pinned to the rounds the program takes. On a network with several maximum flows, the contract does not say which one the program leaves in the network, although each round's path is the program's own (`ShortestPath`, through `Bfs`).
- AugmentLoop: for the same reason, the state after the loop is described by the invariant and "no walk left", not by a function of the sequence of rounds.
- AddArc: both endpoints must lie in 1..n, and every destination in a well-formed graph lies in 1..n. The reader checks neither endpoint. An arc line with endpoint 0 is accepted and fills the unused list of vertex 0, and an endpoint beyond n makes the program write out of bounds. Both kinds of input are excluded, and their runs are not described.
- MaxFlow: requires every initial flow to lie between 0 and its capacity. The reader sets all flows to 0 but does not check the sign of a capacity, so an input arc with a negative capacity is excluded by this precondition and its runs are not described.
- MinCapacity weighs every arc from p[i] to p[i + 1], while the update changes only the first. In a simple residual graph these are the same arc. The model does not say what happens when they differ.
- Linked-list identity is not modelled. Lists are sequences, so aliasing between cells and the order of pointer writes are not captured; the order of the resulting lists is.

## Findings

| source | as written | input that shows it | evidently intended | confidence | as-written member | corrected member |
|---|---|---|---|---|---|---|
| algorithme-de-dinic/dinic.c:112 | the reader accepts a source equal to the sink. The search then returns the one-vertex path, minCapacity returns INT_MAX, and updateResidualGraph changes nothing, so the loop of main finds the same path forever and adds INT_MAX to `maxFlow` each round | a network with the lines `n 1 s` and `n 1 t` | reject a source equal to the sink, as a missing source or sink is rejected | high; not executed | MaxFlowLoop.SourceIsSinkRepeats | MaxFlowLoop.MaxFlow |

