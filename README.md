# RustyRoads road engine, modelled in Dafny

RustyRoads is a road-network editor. This project models its engine. The engine has these parts:

- a store of nodes and edges, each with its own id counter;
- two spatial indexes from a 100 × 100 world chunk to the ids registered in it;
- the collision queries that scan those indexes around a point;
- an A* search over the incident-edge lists;
- the priority queues behind that search;
- the lane tables an edge carries.

The modules follow the program's files:

| module | file | what it holds |
|---|---|---|
| `Vec` | `vec.dfy` | `Vec2Axis` and the component helpers of `Vec2CompWise`, for the integer vector (`int` components) and the float vector (`real` components). |
| `Traffic` | `traffic.dfy` | The twelve lane types; their width, direction and separator tables; `LaneDefinition` with its size check; the name table of `LaneTypeManager`. |
| `FibonacciHeap` | `fibonacci_heap.dfy` | The lazily invalidating binary min-heap of shared cells. |
| `AStar` | `a_star.dfy` | `AStarNode` and the open set `AStarHeap`. The open set maps each node to the handle of its cell. |
| `Chunks` | `chunk.dfy` | `ChunkPos`; the home chunk of a point; the 1, 2 or 4 chunks searched around a query point and the iterator over them; the chunks an edge is rasterised to. |
| `Nodes` | `node.dfy` | The `NodeManager` class and its operations: `new` (the 11 × 11 demo grid), `add_node`, `make_edge`, `a_star`, `reconstruct_path` and the two collision queries. |

How the source is represented:

- State the source changes in place is a class:
  - `NodeManager` has fields for the two id counters with their maps, both chunk indexes and the tested-node list.
  - `FibonacciHeap` keeps every cell it ever pushed in an arena `cells`, indexed by handle.
  - `AStarHeap` has a handle map, and a ghost map of the queued weights.
- The loops of the source stay loops, with invariants, and are proved against specification functions:
  - `Rasterise` gives the chunks an edge is registered in.
  - `Scan` gives the ids a collision query examines.
  - `IsWalk` says when a path of edges leads from one node to another.
  - `EdgesOf` gives the edges `a_star` explores.
- The pure tables are functions.

A shared cell is modelled as a `(value, valid, present)` triple:

- `present` says whether the heap still holds the cell. The heap holds the only strong reference, so `present` is exactly whether a weak handle can still be upgraded.
- `valid` is the flag `decrease_key` clears.

Two properties of the code worth knowing:

- **Stepping axis.** The general case of the rasteriser steps along the axis of the larger *signed* component of `b - a` (`get_max_axis`), not the larger magnitude, so the chunks an edge is registered in can have gaps. `Chunks.SignedAxisLeavesGap` shows a segment whose middle lies in a chunk the edge is never registered in.
- **Search order.** The area iterator yields the stored chunks last to first.

## Model

| member | source | states |
|---|---|---|
| Vec.Other | src/math/vec.rs:10-15 | The other axis is different from the given one. |
| Vec.OtherIsInvolution | src/math/vec.rs:10-15 | Taking the other axis twice gives back the axis. |
| Vec.IVec2.GetMaxAxis | src/math/vec.rs:43-53 | `Some(X)` iff x > y, `Some(Y)` iff y > x, `None` iff they are equal; the comparison is on signed values, and the chosen component is strictly the larger one. |
| Vec.Vec2.GetMaxAxis | src/math/vec.rs:43-53 | The same three-way characterisation for real components. |
| Vec.IVec2.WithOffsetOn | src/math/vec.rs:55-60 | Adds the offset to the chosen component and leaves the other one alone. |
| Vec.Vec2.WithOffsetOn | src/math/vec.rs:55-60 | The same for real components. |
| Vec.IVec2.WithComp | src/math/vec.rs:62-67 | Reading the chosen component back gives the new value; the other component is unchanged. |
| Vec.Vec2.WithComp | src/math/vec.rs:62-67 | The same for real components. |
| Vec.WithCompOfGetComp | src/math/vec.rs:36-67 | Writing a component with the value read from it gives back the same vector. |
| Vec.IntAndRealAgree | src/math/vec.rs:72-73 | The integer and real instantiations agree: casting to real commutes with get_comp, get_max_axis, with_offset_on and with_comp. |
| Vec.Signum | src/node/mod.rs:377 | The sign is -1, 0 or 1, it is nonzero for a nonzero value, and sign times value is the absolute value. |
| Vec.IVec2.AbsV | src/node/mod.rs:371 | Each component of the result is the absolute value of the input's component. |
| Traffic.Width | src/traffic.rs:32-37 | Half width exactly for grass and sidewalk. |
| Traffic.Direction | src/traffic.rs:43-49 | No direction exactly for grass and sidewalk. |
| Traffic.DirectionMatchesName | src/traffic.rs:39-49 | Forward exactly for the variants named `…Forward`, Reverse exactly for those named `…Reverse`. |
| Traffic.DirectionIffFullWidth | src/traffic.rs:32-49 | A lane has a direction exactly when it is full width. |
| Traffic.Border | src/traffic.rs:62 | The border of a border strip is the road edge exactly on the first lane. |
| Traffic.PreSeparator | src/traffic.rs:51-104 | The separator table. A dirt lane always gets nothing. A border strip occurs exactly for a normal or bus lane after a verge, and carries Edge iff first_lane. No separation strip is double dashed. A curb comes only between a full lane and a following half-width lane. A parking strip comes only before a parking lane that follows a non-parking, non-verge lane. |
| Traffic.CarriagewaySeparation | src/traffic.rs:61-93 | Between two normal or bus lanes there is always a separation strip. It is convergent iff both lanes share a direction, and single dashed iff the two lanes are the same type or both are bus lanes. |
| Traffic.FirstLaneOnlyPicksBorder | src/traffic.rs:51-104 | first_lane changes the separator exactly when it is a border strip. |
| Traffic.AllLaneTypesComplete | src/traffic.rs:14-29 | The iteration order lists every variant. |
| Traffic.AllLaneTypesDistinct | src/traffic.rs:14-29 | The iteration order lists no variant twice. |
| Traffic.NameInjective | src/traffic.rs:39-41 | Distinct variants have distinct Debug names. |
| Traffic.NewLaneTypeManager | src/traffic.rs:124-132 | After the insertion loop, each variant's name maps to that variant, and every key is some variant's name. |
| Traffic.RegisterNext | src/traffic.rs:126-128 | Inserting the next variant under its name keeps the earlier entries and adds exactly that one. |
| Traffic.NewLaneDefinition | src/traffic.rs:147-158 | Ok exactly for 1..=40, with that many lanes, all grass. Size 0 is the "zero" error; sizes above 40 are the "exceeded" error. |
| Traffic.LaneDefinition.GetSize | src/traffic.rs:160-166 | The size is the number of lanes, between 1 and 40. |
| Traffic.GetSizeOfNew | src/traffic.rs:147-166 | get_size returns the size new was called with. |
| FibonacciHeap.FibonacciHeap.constructor | src/node/fibonacci_heap.rs:61-65 | A new heap holds no cells and keeps the given order. |
| FibonacciHeap.FibonacciHeap.Push | src/node/fibonacci_heap.rs:67-73 | Exactly one new valid, present cell holding t is added. Its handle is returned. It is one more live and one more present handle. |
| FibonacciHeap.FibonacciHeap.Pop | src/node/fibonacci_heap.rs:75-83 | None iff no valid cell was held, and then the heap is emptied. Otherwise the value of a valid cell of smallest key among the valid cells, which leaves the heap, and no cell still held has a smaller key. Every other cell taken out was invalid with a key no larger. Values and valid flags never change. |
| FibonacciHeap.FibonacciHeap.PopCell | src/node/fibonacci_heap.rs:76 | BinaryHeap::pop: None iff the heap holds no cell; otherwise a held cell of smallest key is taken out and nothing else changes. |
| FibonacciHeap.FibonacciHeap.TopExists | src/node/fibonacci_heap.rs:56-57 | A heap holding a cell has a cell of smallest key. |
| FibonacciHeap.TakeOut | src/node/fibonacci_heap.rs:76 | Taking a cell out removes its handle from the held handles, and from the live ones only if it was valid. |
| FibonacciHeap.DiscardStep | src/node/fibonacci_heap.rs:76-78 | Skipping an invalid top cell keeps the loop invariant of pop. |
| FibonacciHeap.DiscardFound | src/node/fibonacci_heap.rs:80 | A valid top cell has the smallest key among the cells that were live when pop began. |
| FibonacciHeap.DiscardEmpty | src/node/fibonacci_heap.rs:82 | A heap emptied by pop held no valid cell. |
| FibonacciHeap.FibonacciHeap.DecreaseKey | src/node/fibonacci_heap.rs:85-99 | A handle whose cell left the heap gives KeyNotPresent. A held but invalidated cell gives KeyNotValid. A key that does not decrease gives CannotIncreaseKey. Each of these is an iff, and none changes anything. On success the old cell is invalidated, a valid cell with new_t is pushed and its handle returned, and the number of valid cells is unchanged. |
| AStar.Compare | src/node/a_star.rs:65-69 | The order of AStarNode: Equal iff the weights are equal, Less iff the first weight is smaller. |
| AStar.EqualityIsNotOrder | src/node/a_star.rs:51-75 | Equality looks at the node only and the order at the weight only, so they disagree both ways. |
| AStar.EmptyIndexes | src/node/a_star.rs:40-45 | The handle map is empty exactly when the heap holds no valid cell. |
| AStar.IndexesAfterInsert | src/node/a_star.rs:21-22 | Recording a fresh cell for an unqueued node keeps the map consistent and queues the node with its weight. |
| AStar.IndexesAfterReplace | src/node/a_star.rs:25-28 | Invalidating a node's cell, pushing a new one and recording it keeps the map consistent and sets the node's weight. |
| AStar.IndexesAfterRemove | src/node/a_star.rs:40-45 | Removing the popped node from the map keeps it consistent and drops exactly that node. |
| AStar.IndexesMin | src/node/a_star.rs:40-45 | A live cell of smallest key holds a queued node of smallest weight. |
| AStar.AStarHeap.constructor | src/node/a_star.rs:13-18 | A new open set is consistent and empty. |
| AStar.AStarHeap.Push | src/node/a_star.rs:20-38 | An unqueued node is queued with its weight. A queued node takes the weight when it is strictly smaller, and is otherwise left as it was. The map/heap invariant is kept, so the KeyNotValid and KeyNotPresent branches cannot be taken. |
| AStar.AStarHeap.Pop | src/node/a_star.rs:40-45 | None iff nothing is queued. Otherwise a queued node of smallest weight, which is removed from the queue while everything else stays. |
| Chunks.Trunc | src/node/mod.rs:18-19 | `f32 as i32` truncates toward zero: within one of x, and not past x away from zero. |
| Chunks.WorldBounds | src/node/mod.rs:17-21 | With a city 100000 wide and chunks of 100, the chunk indices run from -500 to 499. |
| Chunks.Ceil | src/node/mod.rs:68 | The ceiling is the least integer not below x. |
| Chunks.Clamp | src/node/mod.rs:59 | The result is in [-500, 499], equal to the input inside that range and the nearer bound outside it. |
| Chunks.FromWorldPos | src/node/mod.rs:57-60 | Every home chunk lies within the world bounds. |
| Chunks.HomeChunkContains | src/node/mod.rs:57-60 | Inside the world a coordinate lies in its home chunk (100 c ≤ w < 100 (c + 1)); outside it, the home chunk is the border chunk. |
| Chunks.ChunkCompMonotone | src/node/mod.rs:57-60 | Home chunks keep the order of the coordinates. |
| Chunks.Expand | src/node/mod.rs:110-116 | The area is doubled: the chunks kept in order, followed by each of them shifted by the offset. |
| Chunks.GetArea | src/node/mod.rs:66-95 | The first chunk of the area is the home chunk. |
| Chunks.AxisCompsInWorld | src/node/mod.rs:72-93 | On each axis the searched indices are within the world and at most one from the home index. |
| Chunks.AxisCovers | src/node/mod.rs:66-93 | The home index of every coordinate less than half a chunk away is searched, on each axis. |
| Chunks.AreaIsProduct | src/node/mod.rs:66-95 | A chunk is in the area iff each of its coordinates is one of the indices searched on that axis. |
| Chunks.AreaFacts | src/node/mod.rs:66-116 | The area has 1, 2 or 4 distinct chunks, all in the world, so expand never meets a full area. It contains the home chunk of every point less than half a chunk away on both axes. |
| Chunks.AreaIter.Next | src/node/mod.rs:145-169 | None exactly on the empty iterator, which stays empty; otherwise one chunk fewer is left. |
| Chunks.AreaIter.DrainNext | src/node/mod.rs:145-169 | One next call yields the first of the remaining chunks, or ends the iteration. |
| Chunks.IterYieldsArea | src/node/mod.rs:118-169 | The iterator over an area yields exactly the area's chunks, last stored first, and then None for ever. |
| Chunks.SearchOrderIsArea | src/node/mod.rs:118-139 | The search order visits exactly the chunks of the area. |
| Chunks.Sat32 | src/node/mod.rs:397 | The saturating `as i32` is the identity within i32 range and the nearer bound outside it. |
| Chunks.RasteriseEnds | src/node/mod.rs:362-416 | The start chunk is always registered first, and the end chunk is always registered. Both ends in one chunk register exactly that chunk. |
| Chunks.RasteriseStraight | src/node/mod.rs:368-381 | End chunks on one row or column register exactly the chunks of the run between them, each once: abs(Δ) + 1 chunks. |
| Chunks.RasteriseIsStraight | src/node/mod.rs:368-381 | In the straight case, abs() picks the axis the ends differ on, and the loop steps one chunk at a time along it, towards the end chunk. |
| Chunks.StraightRun | src/node/mod.rs:373-381 | The straight run has abs(Δ) + 1 chunks, no repeats, and holds exactly the chunks between its ends on their line. |
| Chunks.RasteriseSlope | src/node/mod.rs:383-400 | General case along the signed axis of b − a. Chunks are registered at abs(Δ) + 1 positions, each chunk once. The inner chunks step one chunk at a time by the sign of Δ. On the other axis each inner chunk is the one the line crosses at the middle of its column. |
| Chunks.RasteriseIsSlope | src/node/mod.rs:384-400 | The general case registers both end chunks and then the interpolated chunk of each inner step. |
| Chunks.SlopeSteps | src/node/mod.rs:390-399 | The loop of the general case: abs(Δ) − 1 inner chunks, stepping by the sign, each crossed at the middle of its column. |
| Chunks.RasteriseDiagonal | src/node/mod.rs:402-414 | A perfect diagonal registers abs(Δx) + 1 chunks, each once. The inner chunks step x by the sign of Δx, and y by the same amount. |
| Chunks.RasteriseIsDiagonal | src/node/mod.rs:402-414 | The diagonal case registers both end chunks and then the chunks stepped along both axes together. |
| Chunks.DiagonalSteps | src/node/mod.rs:407-413 | The loop of the diagonal case: abs(Δx) − 1 distinct inner chunks on the diagonal through the start chunk. |
| Chunks.SignedAxisLeavesGap | src/node/mod.rs:386-400 | A concrete edge, (50, 950) to (150, 50), whose midpoint chunk (1, 5) is not registered, because the signed axis is x. |
| Nodes.Inner.GetId | src/node/mod.rs:247-252 | The new id is larger than the counter and becomes the counter. Items are untouched. If every stored id was issued, the new id is unused and the store stays issued. |
| Nodes.IdsCountUp | src/node/mod.rs:247-264 | A fresh counter issues 1, and ids go up one by one. |
| Nodes.GetOtherNode | src/node/mod.rs:530-536 | The given node and the result are the edge's two ends, as a multiset. |
| Nodes.OtherOfOther | src/node/mod.rs:530-536 | Going to the other end and back returns to the start; this holds for loops too. |
| Nodes.ClosestPoint | src/node/mod.rs:512-526 | The point distance_to_sqr measures from lies on the segment. For a segment of length zero (a NaN parameter) it is b. Otherwise, with q = ap·ab and L = |ab|²: when 0 ≤ q ≤ L it is the foot of the perpendicular from p (c − p is orthogonal to ab); when q < 0 it is a; when q > L it is b. |
| Nodes.DistanceToSqr | src/node/mod.rs:512-527 | The squared distance is never negative, and is zero when p is itself the chosen point of the segment. |
| Nodes.EndsOnSegment | src/node/mod.rs:512-527 | Both end nodes of an edge are at distance zero from it. |
| Nodes.RegisterAllBucket | src/node/mod.rs:362-416 | After registering an edge in a list of chunks, every bucket holds its old ids followed by the edge once per occurrence of its chunk in the list. |
| Nodes.BucketOfRegister | src/node/mod.rs:343 | `entry(c).or_insert_with(Vec::new).push(x)` appends x to bucket c only. |
| Nodes.RegisterAllAppend | src/node/mod.rs:362-416 | Registering in two lists one after the other is registering in their concatenation. |
| Nodes.RasteriseNoDuplicates | src/node/mod.rs:362-416 | No edge is pushed twice into one bucket. |
| Nodes.RegisterFresh | src/node/mod.rs:362-416 | Registering a new id lists it in exactly the rasterised chunks, and keeps every bucket free of repeats. |
| Nodes.EmptyStore | src/node/mod.rs:255-272 | The empty manager satisfies the store invariant. |
| Nodes.AddNodeKeeps | src/node/mod.rs:336-345 | A new node with no edges, listed in its home chunk, keeps the store invariant. |
| Nodes.AddNodeToBuckets | src/node/mod.rs:343 | Listing a new node in its home chunk keeps the node index exact. |
| Nodes.MakeEdgeKeeps | src/node/mod.rs:347-418 | A new edge keeps the store invariant. The edge is listed by both ends and registered in the rasterised chunks. |
| Nodes.AttachedFacts | src/node/mod.rs:355-360 | Attaching keeps every node's position and id. A node gains exactly the new edge, and only if it is one of its ends. |
| Nodes.AttachKeepsIncidence | src/node/mod.rs:355-360 | Attaching the new edge to its ends keeps incidence: a node lists an edge exactly when it is one of its ends. |
| Nodes.AddEdgeToBuckets | src/node/mod.rs:362-416 | Registering a new edge in its rasterised chunks keeps the edge index exact. |
| Nodes.IncidentSame | src/node/mod.rs:355-360 | A node's creation-order edge list up to id m depends only on the edges with ids up to m. |
| Nodes.IncidentNone | src/node/mod.rs:336-345 | A node no edge touches has an empty creation-order edge list, as add_node leaves it. |
| Nodes.IncidentSnoc | src/node/mod.rs:355-360 | A new last edge extends a node's creation-order list by its id once per end at that node. |
| Nodes.NodeIndexSame | src/node/mod.rs:343 | The node index built in id order depends only on the positions of the nodes up to the counter. |
| Nodes.EdgeIndexSame | src/node/mod.rs:362-416 | The edge index built in id order depends only on the edges up to the counter and the positions of their ends. |
| Nodes.AddNodeInOrder | src/node/mod.rs:336-345 | add_node keeps the creation order: the new node lists no edge and its id comes last in its bucket. |
| Nodes.MakeEdgeInOrder | src/node/mod.rs:347-418 | make_edge keeps the creation order: its id comes last in its ends' edge lists and in the buckets of its chunks. |
| Nodes.EdgeIndexAttach | src/node/mod.rs:362-416 | Attaching a new last edge extends the creation-order edge index by registering its id in the edge's chunks. |
| Nodes.AttachInOrder | src/node/mod.rs:355-360 | Appending the new last edge to its ends keeps every node's edge list the creation-order list. |
| Nodes.NodeManager.constructor | src/node/mod.rs:255-310 | The demo grid is built. There are 121 nodes at (100 x, 100 y) for x, y in -5..=5, with ids column by column. There are 110 column edges, the middle column with speed 2 and 16 lanes, the others with speed 1 and 12. There are 110 row edges with speed 1 and 12 lanes. The counters end at 121 and 220, and the store invariant holds. Every node lists its edges, and every bucket its ids, in creation order; so each grid node lists the column edge below it, the one above it, the row edge on its left and the one on its right, where the grid has them. |
| Nodes.GridId | src/node/mod.rs:276-281 | Grid ids run from 1 to 121. |
| Nodes.GridIdInjective | src/node/mod.rs:276-281 | Distinct grid places have distinct node ids. |
| Nodes.IncidentSkip | src/node/mod.rs:355-360 | Edges that do not touch a node add nothing to its creation-order list. |
| Nodes.IncidentAfterLast | src/node/mod.rs:355-360 | When a list covers every edge touching a node, no edge after its last element changes the node's creation-order list. |
| Nodes.IncidentInit | src/node/mod.rs:355-360 | Without its last element, such a list still lists and covers the touching edges below that element. |
| Nodes.IncidentExactly | src/node/mod.rs:285-308 | An increasing list holding exactly the edges up to m that touch a node, each once, is that node's creation-order edge list. |
| Nodes.GridTouches | src/node/mod.rs:285-308 | Every grid edge touching the node in column x and row y is one of its four neighbouring edges. |
| Nodes.ColumnEdgeEnds | src/node/mod.rs:285-298 | Every column edge is stored with an id up to 220, and each node it joins is one of its ends exactly once. |
| Nodes.RowEdgeEnds | src/node/mod.rs:299-308 | Every row edge is stored with an id up to 220, and each node it joins is one of its ends exactly once. |
| Nodes.GridListEdge | src/node/mod.rs:285-308 | Each edge a grid node should list is stored, has an id up to 220 and has that node as an end exactly once. |
| Nodes.GridIncident | src/node/mod.rs:285-308 | In the grid, a node's creation-order edge list is: the column edge below, the one above, the row edge left, the row edge right, where they exist. |
| Nodes.GridListsFromOrder | src/node/mod.rs:255-310 | Grid nodes listing their edges in creation order list exactly those four neighbouring edges. |
| Nodes.NodeManager.AddGridNodes | src/node/mod.rs:276-281 | The node loops place all 121 grid nodes, and `ids` holds each node's id by column and row. |
| Nodes.NodeManager.AddGridColumn | src/node/mod.rs:277-280 | One column is added bottom to top and returned; earlier nodes stay as they were. |
| Nodes.NodeManager.AddColumnEdges | src/node/mod.rs:285-298 | All 110 column edges are stored, ids 1 to 110, and the nodes keep their places. |
| Nodes.NodeManager.AddColumnLinks | src/node/mod.rs:286-297 | One column is linked bottom to top, with ten new edges; earlier edges stay. |
| Nodes.NodeManager.AddColumnLink | src/node/mod.rs:289-295 | One round of the inner column loop: the edge from a node to the one above it gets the next id, with speed 2 and 16 lanes in the middle column and 1 and 12 elsewhere; earlier edges stay. |
| Nodes.NodeManager.AddRowEdges | src/node/mod.rs:299-308 | All 110 row edges are stored, ids 111 to 220, and the column edges stay. |
| Nodes.NodeManager.AddRowLinks | src/node/mod.rs:300-307 | One row is linked left to right, with ten new edges; earlier edges stay. |
| Nodes.NodeManager.AddRowLink | src/node/mod.rs:303-305 | One round of the inner row loop: the edge from a node to the one on its right gets the next id, with speed 1 and 12 lanes; earlier edges stay. |
| Nodes.NodeManager.MakeGridEdge | src/node/mod.rs:291-304 | make_edge between two grid nodes stores exactly the new edge under the next, unused id. It leaves the node counter, the node index and the grid nodes' places alone, and keeps the store invariant and the creation order. |
| Nodes.NodeManager.AddNode | src/node/mod.rs:336-345 | The id is the next one and was unused. The node is stored with the position and no edges. The id is appended to the home chunk's bucket alone. Nothing else changes, and the invariant and the creation order are kept. |
| Nodes.NodeManager.MakeEdge | src/node/mod.rs:347-418 | The edge is stored under the next, unused id with its ends, speed and lanes. The id is appended to both ends' edge lists (twice for a loop). It is registered in exactly the chunks of `Rasterise`, in order. The node index and counter are untouched, and the invariant and the creation order are kept. |
| Nodes.NodeManager.AttachEdge | src/node/mod.rs:348-360 | Stores the edge, appends its id to both ends and returns their positions. |
| Nodes.NodeManager.RegisterEdgeChunks | src/node/mod.rs:361-416 | The three-way branch registers the edge in exactly `Rasterise(a, b)`, in order, and changes nothing else. |
| Nodes.NodeManager.RegisterEnds | src/node/mod.rs:373-374 | Pushes the edge into the two end buckets. |
| Nodes.NodeManager.RegisterStraight | src/node/mod.rs:368-381 | The straight-line branch registers exactly `Rasterise(a, b)`. |
| Nodes.NodeManager.RegisterStraightSteps | src/node/mod.rs:375-381 | The straight-line loop registers the inner run along the axis. |
| Nodes.NodeManager.RegisterSlope | src/node/mod.rs:386-400 | The general branch registers exactly `Rasterise(a, b)`. |
| Nodes.NodeManager.RegisterSlopeSteps | src/node/mod.rs:390-399 | The general loop registers the interpolated chunk of each inner step. |
| Nodes.NodeManager.RegisterDiagonal | src/node/mod.rs:402-414 | The diagonal branch registers exactly `Rasterise(a, b)`. |
| Nodes.NodeManager.RegisterDiagonalSteps | src/node/mod.rs:407-413 | The diagonal loop registers the chunks stepped on both axes. |
| Nodes.NodeManager.GetNeighbours | src/node/mod.rs:195-200 | One entry per edge of the node, in edge order. Each entry's edge is stored, and the node and the neighbour are that edge's two ends. |
| Nodes.NodeManager.FindEdge | src/node/mod.rs:202-209 | None iff no edge of the node leads to `other`. Otherwise the first such edge in the node's list, with its index there. |
| Nodes.NodeManager.ReconstructPath | src/node/mod.rs:448-456 | The edges form a walk from the goal back to a node without a came_from link; the walk is empty when the goal has no link. The nodes passed are the came_from chain from the goal. Each edge is the first edge in the list of a node of the chain that leads to the next node, at the index `idx` records. |
| Nodes.ReconstructStep | src/node/mod.rs:451-454 | One round of the loop extends the walk and the followed chain by the link of the current node and the edge find_edge returns, and moves to a node of lower rank than every node passed. |
| Nodes.NodeManager.Relax | src/node/mod.rs:436-442 | The tentative score is g(current) + distance / speed, never below g(current). g-score and came_from change exactly when it is strictly smaller than the neighbour's (a missing one counts as infinite). Only then is the neighbour pushed, with f-score tentative + h(neighbour's position, goal position): its queued weight becomes that f-score unless it was already queued with a weight no larger, and every other weight stays. Otherwise the open set is unchanged. |
| Nodes.NodeManager.ExpandEdge | src/node/mod.rs:434-443 | One relaxation keeps the search invariant and the frontier, and leaves the neighbour reached. |
| Nodes.NodeManager.Expand | src/node/mod.rs:433-443 | Expanding a node appends all its edges to `explored`, and keeps the search invariant with the node closed. |
| Nodes.NodeManager.AStarSearch | src/node/mod.rs:420-446 | start == goal gives `Some([])` and nothing explored. A path found is a walk from the goal to the start. When the queue runs dry, no walk from start to goal exists. `explored` is the edges of the expanded non-goal nodes, in order; the start is expanded first, and every expanded node is reachable from it. |
| Nodes.IsWalkSnoc | src/node/mod.rs:451-453 | Appending an edge of the node reached extends the walk to its other end. |
| Nodes.IsWalkReverse | src/node/mod.rs:448-456 | A walk reversed is a walk back, so the goal-to-start path also gives a start-to-goal walk. |
| Nodes.WalkAppend | src/node/mod.rs:448-456 | Two walks that meet join into one. |
| Nodes.WalkStaysIn | src/node/mod.rs:429-445 | No walk leaves a set of nodes that contains every neighbour of its members. |
| Nodes.LinkStep | src/node/mod.rs:452 | The first edge find_edge finds from n towards m leads from n to m. |
| Nodes.FollowsSnoc | src/node/mod.rs:450-454 | Following one more came_from link with find_edge's edge extends the chain the path follows. |
| Nodes.FollowsEach | src/node/mod.rs:450-454 | Each step of a followed path is a came_from link, and its edge is the first edge of the node joining it to the next. |
| Nodes.SearchAdvance | src/node/mod.rs:429-444 | Popping a non-goal node and expanding it makes one more step of the main loop, with the node expanded, reachable and its edges explored. |
| Nodes.GoalReached | src/node/mod.rs:430-431 | When the goal leaves the queue it has a g-score, the links are ranked, and if it is the start nothing is linked or explored. |
| Nodes.SearchEnds | src/node/mod.rs:429-445 | On every way out of the main loop, the expanded nodes are stored non-goal nodes reachable from the start, the first being the start once anything was expanded, and `explored` is their edge lists in order. |
| Nodes.WalkEndsAtStart | src/node/mod.rs:430-431 | The node without a link where the reconstructed walk stops is the start. |
| Nodes.SearchStarts | src/node/mod.rs:421-427 | The initial state (start alone, g = 0) satisfies the search invariant. |
| Nodes.RelaxKeeps | src/node/mod.rs:437-442 | An improving relaxation keeps the search invariant: scores, links ranked back to the start, stamps and expanded nodes. |
| Nodes.RelaxOutcome | src/node/mod.rs:436-442 | Both outcomes of a relaxation keep the search invariant, and the neighbour is reached afterwards. |
| Nodes.FrontierRelax | src/node/mod.rs:437-441 | The open set stays within the reached nodes, and every reached node is either closed or open. |
| Nodes.CloseNode | src/node/mod.rs:433-443 | A non-goal node whose neighbours are all reached can be closed. |
| Nodes.NoPathLeft | src/node/mod.rs:429-445 | When every reached node is expanded and the goal is not among them, no walk leads from start to goal. |
| Nodes.ReachedFromStart | src/node/mod.rs:421-442 | Every node with a g-score is reachable from the start, by its ranked came_from links. |
| Nodes.ReachableSnoc | src/node/mod.rs:429-435 | Appending a reachable node keeps the expanded list reachable. |
| Nodes.ExpandedSnoc | src/node/mod.rs:433-435 | Expanding one more node appends its edge list to `explored`. |
| Nodes.NodeManager.TryNodeCollision | src/node/mod.rs:458-471 | The result is the first id, in search order and then bucket order, within radius 10. `tested_nodes` holds every id examined up to it, in order. None iff no stored node is that close. |
| Nodes.NodeManager.ScanNodeArea | src/node/mod.rs:460-470 | The loop over the area is a linear search of `Scan` that records what it tests. |
| Nodes.NodeManager.ScanNodeChunk | src/node/mod.rs:461-468 | One chunk's bucket is searched; a missing bucket is empty. |
| Nodes.NodeManager.ScanNodeBucket | src/node/mod.rs:462-467 | The loop over one bucket: the first hit, with every tested id recorded. |
| Nodes.NodeScanComplete | src/node/mod.rs:458-471 | Every node within the radius of the point lies in one of the buckets scanned. |
| Nodes.NodeManager.TryEdgeCollision | src/node/mod.rs:473-484 | The result is the first edge within 5 in the scan order. None iff no edge within 5 is rasterised to a chunk of the area. |
| Nodes.NodeManager.ScanEdgeArea | src/node/mod.rs:474-483 | The loop over the area is a linear search of `Scan`. |
| Nodes.NodeManager.ScanEdgeChunk | src/node/mod.rs:475-481 | One chunk's bucket is searched; a missing bucket is empty. |
| Nodes.NodeManager.ScanEdgeBucket | src/node/mod.rs:476-480 | The loop over one bucket returns its first edge within 5. |
| Nodes.ScanHolds | src/node/mod.rs:460-469 | An id is scanned iff it is in the bucket of some chunk searched. |
| Nodes.ScanMiss | src/node/mod.rs:460-469 | A bucket without a hit extends the scan with no hit so far. |
| Nodes.ScanHit | src/node/mod.rs:460-469 | The first hit in a bucket, after buckets without hits, is the first hit of the whole scan. |
| Nodes.EdgeScanMeaning | src/node/mod.rs:473-484 | The search finds nothing iff no near edge is registered in a chunk of the area. |

## Left out

- Floating point. `f32` positions, speeds and scores are `real`, so NaN, infinities and rounding are not modelled. The `F32` wrapper's `total_cmp` is the ordinary order of reals.
- Integer widths. The 64-bit id counters never overflow in the model (the source would panic in `NonZeroU64::new(..).unwrap()` after wrapping). Chunk arithmetic on `i32` is unbounded, except for the saturating float-to-int cast of the general rasteriser case (`Chunks.Sat32`).
- The square root. glam's `distance` and the caller's heuristic `h` are function parameters, so `a_star`'s results are proved for any heuristic. Optimality of the returned path is not claimed; the source does not promise it.
- Nodes.NodeManager.AStarSearch:
  - It takes a `fuel` bound on loop iterations. The source loop terminates, because every push strictly lowers a g-score, and with non-negative distances and positive speeds each g-score is the cost of a walk from the start. Termination is not proved here; the model takes the fuel bound instead. `outOfFuel` reports when the bound cut the search short. On that path nothing is claimed beyond the explored edges.
  - It requires the distance parameter to be non-negative and every edge speed to be positive. Over reals, a zero speed would be a division by zero, which `f32` turns into an infinity.
  - It requires only the graph part of the invariant (`Graph`), not the chunk indexes.
- Nodes.NodeManager.Relax and Nodes.NodeManager.ExpandEdge: they require the same distance and speed conditions as `AStarSearch`, for the same reason.
- Nodes.NodeManager.ReconstructPath requires the `came_from` links to be ranked (lower g-score, or the same g-score set earlier). `a_star` maintains this. Without it the source loop need not end.
- Nodes.NodeManager.TryEdgeCollision: its `None` case is stated against the chunks each edge is registered in, not against geometric nearness. The rasteriser can leave gaps (`Chunks.SignedAxisLeavesGap`), so a near edge can be missed. For nodes, completeness is proved outright (`Nodes.NodeScanComplete`).
- Panics on caller error are preconditions. These are:
  - a missing end node in `make_edge`, or a size outside 1..=40;
  - the `unwrap` of the start and goal positions in `a_star`, which becomes `AStarSearch`'s requirement that both nodes are stored;
  - `expand` on a full area (proved unreachable from `get_area`);
  - the `debug_assert` of `get_other_node`. In release builds that function returns the first end for a node the edge does not touch; this is not modelled.
- Binary heap ties. Among cells of equal smallest key, `BinaryHeap::pop` may return any of them, and so does the model. Its internal array layout is not modelled.
- `Rc`, `Weak` and `RefCell`. A handle is an index into the cell arena, and `tested_nodes` is a plain field. `MaybeUninit` and `transmute` in `new` become a sequence of id columns.
- The user-interface fields of `NodeManager` (`start_node`, `end_node`, `selected_node`, `selected_edge`).
- The one-line accessors:
  - `get_node`, `get_node_mut`, `get_node_pos`, `get_edge`, `get_nodes`, `get_edges`, `Node::get_pos`, `Node::get_id`, `Edge::get_id` and `Edge::get_nodes` appear as map lookups and field reads.
  - `Edge::get_size` is the lane definition's `GetSize`.
  - `Node::radius` is the constant `Radius`.
- `LocalPos` and its `get_delta` are never called and are not part of this model.
