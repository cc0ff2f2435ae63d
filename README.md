# Chaikin3D in Dafny

Chaikin3D applies a three-dimensional Chaikin corner-cutting step to a
polyhedron. Every vertex is truncated: each of its main edges is cut a
fraction `1/n` of the way along. Each old face is then rebuilt from the new
points, and every face with more than three corners gets a few extra
"graphical" edges that triangulate it for drawing.

This project models the mesh-topology engine behind that step and the small
routines around it, and proves properties of the model:

- `groups.dfy` (module `ChaikinGroups`). Faces (`Group`):
  - ordering a face by walking its main edges;
  - stamping the boundary cycle;
  - the doubling "ladder" of graphical edges;
  - collecting triangles.
- `mesh.dfy` (module `MeshGraph`). The arena all of this runs on:
  - nodes are `nat` handles;
  - edges are typed, unordered pairs kept in one edge table;
  - each node keeps a list of edge handles.

  It holds the operations of the node and edge modules that are not part of
  this model, with contracts inferred from how they are used: `connect`,
  `are_connected`, `update_node`, `get_partner_node`.
- `geometry.dfy` (module `Geometry`). Points as triples of `real`, the
  truncation point, and the two cutting ratios.
- `polyhedron.dfy` (module `Polyhedra`):
  - building a polyhedron from vertex and face-index lists;
  - the edge and triangle queries;
  - the depth-first search for planar faces around a node.
- `truncation.dfy` and `chaikin_pass.dfy` (modules `Truncation` and
  `ChaikinPass`). One pass of the current `Chaikin3D`:
  - corner truncation;
  - resurfacing by nearest new node;
  - connecting the rebuilt faces.
- `legacy_polyhedron.dfy` (module `LegacyPolyhedra`). The older
  `polyhedron.py`:
  - triangle deduplication in place;
  - resurfacing by connectivity;
  - its node list.
- `wavefront_reader.dfy` (module `WavefrontReader`). Reading `v ` and `f `
  lines of a Wavefront `.obj` file, with round-trip lemmas.
- `plotly_renderer.dfy` (module `PlotlyRenderer`). Two parts of both renderer
  versions:
  - the subplot cursor, proved to visit every grid cell in row-major order;
  - the loop that turns triangles into a deduplicated vertex list plus index
    triples.
- `arg_utils.dfy` (module `ArgUtils`). What `read_args` does after parsing:
  - key normalisation;
  - validation;
  - the derived verbosity, edge and renderer entries.
- `common.dfy` (module `Common`). `Option`/`Result`/`Outcome`, insertion-ordered
  deduplication (the `VirtualSet` container), and Python indexing.

## How the model is organised

**Mesh state.** Mutable state lives in objects, as in the source:

- the arena (`MeshGraph.Mesh`);
- faces (`ChaikinGroups.Group`);
- polyhedra (`Polyhedra.Polyhedron`);
- the `.obj` reader;
- the renderer.

Each method states the whole new state in its `ensures`. Its meaning is
given by pure functions, and lemmas prove properties of those functions:

| method | specification function |
|---|---|
| `Order` | `OrderedWalk` |
| `InterConnect` | `Ladder` |
| `ResurfaceGroup` | `SurfaceList` |
| `UniqueTriangles` | `Unique` |
| `Parse` | `Parsed` |
| `FillSubplot` | `Fills` |

**Error paths.** Python exceptions and failed `assert`s become `Err`/`Fail`
values with a named cause. Examples: `BrokenGroup`, `UnknownEdgeType`,
`ZeroDivision`, `NoClosestNode`, `TooFewVertices`, `SubplotActive`,
`InvalidExtension`.

**Truncation.** The truncation point of a main edge from `current` to
`partner` is `partner + ratio * (current - partner)`, with two ratios:

- `(n - 1) / n` when the partner is a node of the input polyhedron;
- `(n - 2) / (n - 1)` when the partner is a sub-node made earlier in the same
  pass.

`Geometry.TwoCutsOfOneEdge` and `Geometry.TwoCutsDistance` prove that the
two cuts of one edge land exactly `1/n` of the edge from their endpoints.

**Reordered checks in `read_args`.** `read_args` writes its derived keys
between its checks. The model performs all checks first and writes afterwards
(`ArgUtils.CheckArgs` then `ArgUtils.Derive`). This gives the same result: an
error discards the dictionary, and no check reads a derived key.

**One renderer class for both versions.** `PlotlyRenderer.Renderer` and
`PlotlyRenderer.DrawData` model both `chaikin3d/plotly_renderer.py` and the
older `plotly_renderer.py`. Their cursor code is identical. Their vertex
loops differ only in the explicit length counter, which `DrawData` keeps and
proves equal to the list length. The older file's counterparts are
`init_subplots` (lines 32-42), `fill_subplot` (44-54), `add_to_subplot`
(56-72), `next_subplot` (74-84), `draw_subplots` (86-93) and the vertex loop
of `draw_data` (96-110), which uses `len(vertex_list)` where the current file
keeps a counter.

**Shared with the older polyhedron module.** The older `polyhedron.py` builds
a polyhedron from vertex and face lists with the same algorithm (lines
75-103) and answers `get_connections(type_)` (lines 43-50) as the current
`get_edges(type_)` does; both are modelled once, by
`Polyhedra.Polyhedron.FromStandardVertexLists` and
`Polyhedra.Polyhedron.GetEdges`.

## Model

| member | source | states |
|---|---|---|
| Common.Dedup | src/polyhedron.py:63-69 | insertion-ordered deduplication (the `VirtualSet` container and the `if x not in list: append` idiom): the result has no duplicates and exactly the members of the input |
| Common.DedupSnoc | src/polyhedron.py:453-455 | adding one element to a deduplicated list appends it exactly when it is new |
| Common.AppendNew | polyhedron.py:231-233 | adding items one by one to an insertion-ordered set yields `Dedup(before + items)` |
| Common.FirstError | src/polyhedron.py:277-337 | a loop that stops at its first error: Pass exactly when every step succeeds, otherwise the error of the first step that fails |
| Common.FirstErrorAt | src/polyhedron.py:277-337 | when step k is the first failure, the loop fails with its error |
| Common.AddUnique | src/polyhedron.py:453-455 | the "add unique groups" loop keeps the list duplicate-free and its members are exactly the old ones plus the new items |
| Common.PyIndex | chaikin3d/chaikin_groups.py:53-56 | Python indexing of a list of length `len`: defined exactly for `-len <= i < len`, negative indices counting from the end |
| Geometry.CutsOfOneCoordinate | src/polyhedron.py:137-140 | per coordinate, the base cut lies `1/n` of the edge from the partner and the special cut of that point lies `1/n` from the other end |
| Geometry.TwoCutsOfOneEdge | src/polyhedron.py:182-191 | cutting an edge from both ends (base ratio, then special ratio toward the other end) puts the two sub-nodes at `p + (v - p)/n` and `v + (p - v)/n` |
| Geometry.TwoCutsDistance | src/polyhedron.py:137-140 | each of the two cuts lies at squared distance `|edge|^2 / n^2` from its own endpoint |
| Geometry.SqNormScale | src/polyhedron.py:190-191 | scaling a vector by k scales its squared length by `k^2` |
| MeshGraph.Edge.Repoint | src/polyhedron.py:199-200 | `update_node(old, new)` keeps the edge type and replaces the endpoint `old` |
| MeshGraph.ConnectedSymmetric | chaikin3d/chaikin_groups.py:97 | `are_connected(x, y, t)` holds exactly when `are_connected(y, x, t)` does |
| MeshGraph.ConnectedGrows | chaikin3d/chaikin_groups.py:130-132 | adding edges never disconnects two nodes |
| MeshGraph.ConnectedPrefix | chaikin3d/chaikin_groups.py:160-165 | a connection in an edge table survives in any extension of it |
| MeshGraph.EdgesOfType | src/polyhedron.py:63-69 | `get_edges_by_type`: exactly the listed edges whose type passes the filter |
| MeshGraph.EdgesOfTypeSnoc | src/polyhedron.py:63-69 | filtering one more listed edge appends it exactly when its type passes |
| MeshGraph.Partners | src/polyhedron.py:385-386 | the partner of a node across each edge of a list, in list order |
| MeshGraph.Edge.Partner | src/polyhedron.py:174 | `get_partner_node(v)`: on an edge touching v, the other endpoint, which the edge joins to v with its own type |
| MeshGraph.Mesh.constructor | src/polyhedron.py:23-25 | an empty arena |
| MeshGraph.Mesh.AreConnected | src/polyhedron.py:363 | `Edge.are_connected(x, y, t)`: true exactly when some edge of type t touches x with partner y; the answer is the same with x and y swapped |
| MeshGraph.Mesh.AddNode | src/polyhedron.py:89 | `Node.from_point`: a new node with the next handle, the given point and no edges; the edge table is unchanged |
| MeshGraph.Mesh.Connect | chaikin3d/chaikin_groups.py:131-132 | `connect(x, y, t)`: afterwards x and y are connected with type t (unless x == y); an edge is appended only if they were not already connected. When it is, exactly x's and y's edge lists gain it at their end (`Attach` of the new edge); all other lists are unchanged |
| MeshGraph.Mesh.UpdateNode | src/polyhedron.py:199-200 | only edge `e` changes, and only its endpoint `from` |
| MeshGraph.Mesh.SetEdgeList | src/polyhedron.py:200 | only node v's edge list changes, to the given list |
| MeshGraph.AttachTwice | chaikin3d/chaikin_groups.py:131-132 | connecting in two batches leaves every node the same edge list as connecting all the edges in one go: its old list, then each new edge that touches it in creation order |
| MeshGraph.AttachBelow | src/polyhedron.py:89-112 | edges whose two ends are new nodes leave the edge lists of older nodes unchanged |
| ChaikinGroups.FirstLinked | chaikin3d/chaikin_groups.py:96-101 | the index the inner `for` loop of `order` stops at: the first remaining node main-connected to the current one, or the length of the list when there is none |
| ChaikinGroups.FirstLinkedUnique | chaikin3d/chaikin_groups.py:96-101 | any index with that stopping property is `FirstLinked` |
| ChaikinGroups.RemoveMultiset | chaikin3d/chaikin_groups.py:100 | `pop(index)` removes exactly one occurrence of the popped node |
| ChaikinGroups.WalkPermutes | chaikin3d/chaikin_groups.py:95-116 | success or not, the walk places every remaining node exactly once (on a broken group the leftovers are appended, as `ogroup.extend` does) |
| ChaikinGroups.WalkChains | chaikin3d/chaikin_groups.py:95-101 | a completed walk follows main edges from the start node through every step |
| ChaikinGroups.WalkStuck | chaikin3d/chaikin_groups.py:102-116 | a failed walk reached a node with no main edge to any node still remaining |
| ChaikinGroups.ChainedWalk | chaikin3d/chaikin_groups.py:95-101 | when the remaining nodes already form a main-edge chain from the start node, the walk takes them in that order and succeeds |
| ChaikinGroups.WalkStep | chaikin3d/chaikin_groups.py:95-101 | one iteration of the `while` loop: stop with failure, or append the first linked node and continue from it |
| ChaikinGroups.CycleConnectedOrders | chaikin3d/chaikin_groups.py:91-101 | on a face whose nodes were cycle-connected with main edges, `order` succeeds with the last node followed by the others in list order |
| ChaikinGroups.OrderedWalkMeaning | chaikin3d/chaikin_groups.py:91-118 | for three or more nodes, `ogroup` is a permutation of the nodes, starts with the last node of the list, and on success consecutive nodes are main-connected |
| ChaikinGroups.MembersOfPermutation | chaikin3d/chaikin_groups.py:91-101 | the ordered group has as many entries as the group and only its members |
| ChaikinGroups.ChainGrows | chaikin3d/chaikin_groups.py:95-101 | a main-edge chain stays a chain when edges are added |
| ChaikinGroups.CycleLinkedGrows | chaikin3d/chaikin_groups.py:130-132 | a cycle of edges stays one when edges are added |
| ChaikinGroups.FloorLog2 | chaikin3d/chaikin_groups.py:155 | `int(log2(n))`: the k with `2^k <= n < 2^(k+1)` |
| ChaikinGroups.PassFrom | chaikin3d/chaikin_groups.py:159-163 | the ladder steps of one pass join positions `step` apart, all within the group |
| ChaikinGroups.PassFromStep | chaikin3d/chaikin_groups.py:160-163 | one iteration of the inner loop adds the pair (i - step, i) |
| ChaikinGroups.LastStop | chaikin3d/chaikin_groups.py:160-165 | the last node reached by a pass is within one step of the end |
| ChaikinGroups.PassPairs | chaikin3d/chaikin_groups.py:158-165 | all pairs one pass connects, including the closing pair back to `ogroup[0]`, lie within the group |
| ChaikinGroups.LadderUpTo | chaikin3d/chaikin_groups.py:157-165 | the pairs of the first x passes lie within the group |
| ChaikinGroups.Ladder | chaikin3d/chaikin_groups.py:155-165 | every pair `inter_connect` connects lies within the group |
| ChaikinGroups.SmallGroupsGetNoLadder | chaikin3d/chaikin_groups.py:155-157 | a face of at most three nodes gets no graphical edge |
| ChaikinGroups.LargeGroupsGetPasses | chaikin3d/chaikin_groups.py:155-157 | a face of four or more nodes gets at least one pass and at least one edge |
| ChaikinGroups.ScanLinked | chaikin3d/chaikin_groups.py:96-101 | the inner loop of `order` returns `FirstLinked` |
| ChaikinGroups.OrderNodes | chaikin3d/chaikin_groups.py:91-118 | the `while` loop of `order` computes `OrderedWalk` exactly: the ordered list and whether it succeeded |
| ChaikinGroups.ConnectSucc | chaikin3d/chaikin_groups.py:131-132 | one `connect` of `cycle_connect` joins position i to its cyclic successor and adds only such edges |
| ChaikinGroups.ConnectPair | chaikin3d/chaikin_groups.py:162 | one ladder `connect` links the pair and adds only an edge of the requested type between group members |
| ChaikinGroups.ConnectPass | chaikin3d/chaikin_groups.py:158-165 | one pass links every pair of `PassPairs` and adds only edges of the requested type between group members |
| ChaikinGroups.ConnectLadder | chaikin3d/chaikin_groups.py:155-165 | all passes link every pair of `Ladder(size)`; the edge table only grows, by edges of the requested type between members of the group |
| ChaikinGroups.Group.constructor | chaikin3d/chaikin_groups.py:29-34 | the members deduplicated, `size` their number, unordered, no triangles yet |
| ChaikinGroups.Group.Items | chaikin3d/chaikin_groups.py:50-51 | `__iter__`: the ordered cycle once there is one, else the members; on a valid group it yields only members, at least `size` of them |
| ChaikinGroups.Group.At | chaikin3d/chaikin_groups.py:50-56 | `__getitem__`: Python indexing into the ordered cycle once there is one, else the members; defined exactly for indices in range |
| ChaikinGroups.Group.Triangles | chaikin3d/chaikin_groups.py:58-61 | the `triangles` property fails exactly when `calc_triangles` has not run, and otherwise yields the recorded triangles |
| ChaikinGroups.Group.Order | chaikin3d/chaikin_groups.py:63-118 | unforced on an ordered face: nothing changes. Otherwise `ogroup` is the walk's result, the call succeeds exactly when the walk does, and `ordered` becomes true on success and stays as it was on failure |
| ChaikinGroups.Group.CycleConnect | chaikin3d/chaikin_groups.py:120-132 | fails on an empty face; with two or more members, every member is connected to its cyclic successor with the given type, and every added edge is such a step |
| ChaikinGroups.Group.InterConnect | chaikin3d/chaikin_groups.py:134-165 | with `order_first` it first re-orders; it succeeds exactly when the face is then ordered and non-empty; on success every ladder pair is linked; all added edges have the requested type and join members |
| ChaikinGroups.Group.CalcTriangles | chaikin3d/chaikin_groups.py:167-175 | a second call fails and changes nothing; the first records, without repeats, exactly the triples of members that are pairwise partners as in the three nested loops |
| ChaikinGroups.ScanTriangles | chaikin3d/chaikin_groups.py:170-175 | the three loops record only face triangles, each once, and every face triangle |
| ChaikinGroups.AddTrianglesFrom | chaikin3d/chaikin_groups.py:171-175 | the two inner loops for `node1` add every face triangle starting at `node1` and keep the list sound |
| ChaikinGroups.AddTrianglesThrough | chaikin3d/chaikin_groups.py:172-175 | the innermost loop adds every face triangle through `node1`, `node2` and keeps the list sound |
| ChaikinGroups.LinkedAtPrefix | chaikin3d/chaikin_groups.py:160-165 | a ladder pair once linked stays linked as edges are added |
| ChaikinGroups.LadderLinkedGrows | src/polyhedron.py:341-344 | a face's ladder edges survive the connection of later faces |
| Polyhedra.EdgesOfNodesMembers | src/polyhedron.py:63-69 | an edge is gathered exactly when it is in some node's edge list and its type passes the filter |
| Polyhedra.ListedSnoc | src/polyhedron.py:63-69 | membership in the gathered edges splits into the earlier nodes and the last one |
| Polyhedra.FaceNodes | src/polyhedron.py:97 | `[nodes[index] for index in face]` with Python indexing: defined exactly when every index is in range, position by position |
| Polyhedra.IndexNodes | src/polyhedron.py:97 | the list comprehension computes `FaceNodes` |
| Polyhedra.BuildFace | src/polyhedron.py:95-101 | one face: a bad index or an empty face is an error and adds nothing; otherwise a new group over those nodes, cycle-connected with main edges and ordered; only main edges are added, and each node's edge list gains the new edges that touch it, in creation order |
| Polyhedra.FaceGroupGrows | src/polyhedron.py:108-112 | a built face keeps its properties as edges are added |
| Polyhedra.AllFaceGroupsGrow | src/polyhedron.py:108-112 | every built face keeps its properties as edges are added |
| Polyhedra.SelectedSnoc | src/polyhedron.py:103-104 | a face joins `to_connect` exactly when its size exceeds three |
| Polyhedra.InLargeFaceGroup | src/polyhedron.py:103-112 | an edge between members of a face of more than three nodes lies in one of the selected groups |
| Polyhedra.ConnectOne | src/polyhedron.py:112 | `inter_connect("graphical", order_first=True)` on one large face adds only graphical edges between its members and leaves its ladder linked; the edge lists gain exactly the new edges, in creation order |
| Polyhedra.ConnectFace | src/polyhedron.py:109-112 | one iteration of the second loop: this face's ladder is linked, the faces already laddered stay so, and the edge lists gain exactly the new edges |
| Polyhedra.ConnectNext | src/polyhedron.py:109-112 | after iteration j, the first j + 1 selected faces are laddered; the edge lists gain exactly the new edges |
| Polyhedra.ConnectLarge | src/polyhedron.py:108-112 | after the second loop every face of more than three nodes has its ladder linked; all added edges are graphical and lie inside such a face; each node's edge list is its old list followed by the added edges that touch it, in creation order |
| Polyhedra.AddNodes | src/polyhedron.py:89 | one new node per vertex, in input order, with consecutive handles and an empty edge list each |
| Polyhedra.MembersOfFacesSnoc | src/polyhedron.py:93-106 | the faces built so far plus one good face |
| Polyhedra.FirstBadFaceAt | src/polyhedron.py:93-106 | the first rejected face, and why it was rejected |
| Polyhedra.BuiltSnoc | src/polyhedron.py:93-106 | the face loop invariant after one more face |
| Polyhedra.AddFace | src/polyhedron.py:94-106 | one iteration of the face loop builds the face, adds it to the groups, and adds it to `to_connect` when its size exceeds three; the edge lists gain exactly the new edges |
| Polyhedra.BuildFaces | src/polyhedron.py:93-106 | the face loop fails exactly when some face is bad, naming the first; otherwise it yields one group per face, only main edges are added, and the edge lists gain exactly the new edges in creation order |
| Polyhedra.Polyhedron.constructor | src/polyhedron.py:23-25 | a polyhedron over the given arena, nodes and groups |
| Polyhedra.Polyhedron.FromStandardVertexLists | src/polyhedron.py:72-115 | one node per vertex in input order, each new node's edge list holding exactly the edges later created at it, in creation order (`Attach` over the new nodes' empty lists); one group per face. Each group's nodes are that face's nodes; it is cycle-connected with main edges and ordered; groups of more than three nodes have their graphical ladder, added only after all faces. The call fails exactly when some face has a bad index or is empty |
| Polyhedra.Polyhedron.GetEdges | src/polyhedron.py:51-69 | `get_edges(type_)`: each edge of the requested type found in some node's edge list, exactly once |
| Polyhedra.Polyhedron.IterTriangles | src/polyhedron.py:39-46 | `_iter_triangles`: each triangle of some node, once |
| Polyhedra.GatherMembers | src/polyhedron.py:39-46 | a triangle is gathered exactly when it belongs to some node's list |
| Polyhedra.NecGroupCond | src/polyhedron.py:357-365 | true exactly when every two members, in index order, are main-connected |
| Polyhedra.SplitHead | src/polyhedron.py:436 | extending the visited group by the current node |
| Polyhedra.ReachesStepDown | src/polyhedron.py:435-457 | a trail from the current node continues through one of its main partners |
| Polyhedra.ReachesStepUp | src/polyhedron.py:435-457 | the current node followed by a trail from one of its main partners is a trail |
| Polyhedra.RecFindGroupWithPlane | src/polyhedron.py:403-457 | `[current_group]` on reaching the end node; `[]` on a revisit or a node off the plane; otherwise a duplicate-free list of exactly the groups obtained by extending the group along a trail of main edges on the plane to the end node |
| Polyhedra.MainPartners | src/polyhedron.py:370-380 | the partner across each main edge of the node, one per edge |
| Polyhedra.SearchPair | src/polyhedron.py:380-399 | for one choice of second and end node, adds exactly the groups found through each main partner of the second node, without duplicates |
| Polyhedra.SearchFrom | src/polyhedron.py:376-399 | for one second node, adds exactly the groups found over all end nodes |
| Polyhedra.FindGroupsForNode | src/polyhedron.py:367-401 | a duplicate-free list of exactly the groups found for some choice of second node, end node and first step |
| Truncation.PassRatios | src/polyhedron.py:137-140 | the base and special ratios; `n` equal to 0 or 1 is a division by zero |
| Truncation.CornerPoints | src/polyhedron.py:172-191 | one sub-node point per main edge of the corner, in list order |
| Truncation.Singletons | src/polyhedron.py:200 | one one-edge list per sub-node |
| Truncation.RepointAll | src/polyhedron.py:199-200 | repointing every main edge of the corner keeps the table size |
| Truncation.RepointAllMeaning | src/polyhedron.py:199-200 | the j-th main edge now ends at the j-th sub-node instead of the old node; every other edge is unchanged; no type changes |
| Truncation.RepointAllOutside | src/polyhedron.py:199-200 | an edge not in the corner's list is untouched |
| Truncation.RepointAllAway | src/polyhedron.py:199-200 | an edge not ending at the corner is untouched |
| Truncation.TruncateEdge | src/polyhedron.py:172-201 | one main edge: a new node at the cut point, the edge repointed to it, and its edge list exactly that edge |
| Truncation.CornerPointsSnoc | src/polyhedron.py:172-191 | the points after one more main edge |
| Truncation.RepointAllSnoc | src/polyhedron.py:199-200 | the repointing after one more main edge |
| Truncation.SubPointFrame | src/polyhedron.py:182-191 | a cut point depends only on the edge and the old coordinates |
| Truncation.CutMainEdge | src/polyhedron.py:172-209 | the loop body for a main edge keeps the truncation invariant |
| Truncation.ScannedStep | src/polyhedron.py:171-213 | a main edge is cut and a graphical edge is skipped |
| Truncation.TruncateCorner | src/polyhedron.py:160-213 | an edge of unknown type is an error. Otherwise each main edge of the corner, in order, yields one sub-node with consecutive handles at its cut point; that edge is repointed to it and is its only edge; graphical edges are skipped |
| Truncation.WalkIsCycleOrder | src/polyhedron.py:216-221 | a cycle-connected set of sub-nodes orders successfully, as the last one followed by the rest |
| Truncation.CornerGroup | src/polyhedron.py:216-221 | the corner group: no sub-nodes is an error; otherwise a new group over the sub-nodes, cycle-connected with main edges, ordered, with its ladder linked |
| Truncation.CutCoords | src/polyhedron.py:159-201 | the coordinates after the first `a` input nodes are truncated: the old points, followed by one new point per main edge of each of those corners |
| Truncation.CutEdges | src/polyhedron.py:170-200 | the edge table after the first `a` corners are truncated: the same edges, none added |
| Truncation.SubsOf | src/polyhedron.py:194-227 | the sub-nodes of input node `a`: one per main edge of its corner, with consecutive handles after those of the earlier nodes |
| Truncation.SubPointAt | src/polyhedron.py:172-194 | in the final coordinates, the j-th sub-node of input node x is `partner + ratio * (x - partner)`, the partner being the other end of x's j-th main edge when x is cut and the ratio the base one for an input partner, the special one otherwise |
| Truncation.SubEdgeAt | src/polyhedron.py:196-200 | after all corners are truncated, x's j-th main edge is still main and, when it touched x, it now touches x's j-th sub-node |
| Truncation.SubNodeOnItsEdge | src/polyhedron.py:187-200 | in an arena produced by the first loop, `node_virt_dict[x][j]` is the cut point of x's j-th main edge toward its partner with the base or special ratio, and that edge is main and has been repointed to it |
| Truncation.CutOneEnd | src/polyhedron.py:199-200 | an end already moved to a sub-node stays there while later corners that are not its other end are truncated |
| Truncation.EdgeCutEnds | src/polyhedron.py:170-200 | a main edge between input nodes x and p, x cut first: x is cut toward p, p is cut toward x's sub-node, and the edge ends up joining the two sub-nodes as a main edge |
| Truncation.EdgeCutAtBothEnds | src/polyhedron.py:137-200 | in an arena produced by the first loop, a main edge between two input nodes x and p becomes a main edge between their sub-nodes, at `x + (p - x)/n` and `p + (x - p)/n`: each cut lies `1/n` of the edge from its own end |
| Truncation.CornersPassMeaning | src/polyhedron.py:169-211 | the first `a` corners are truncated without error exactly when none of them has an edge of unknown type or no main edge |
| Truncation.FirstCornersStep | src/polyhedron.py:159-227 | one iteration of the first loop keeps its invariant: coordinates, edges and dictionary as the specification functions give them after one more input node |
| Truncation.CutAsSpecifiedGrow | src/polyhedron.py:341-344 | edges added after the input's own, by the rebuilt faces, leave the first loop's result as it was |
| ChaikinPass.Closest | src/polyhedron.py:296-323 | the nearest candidate exists exactly when there are candidates, and is one of them |
| ChaikinPass.ClosestIsFirstMinimum | src/polyhedron.py:296-323 | the pick is the first candidate at the minimal distance (strict `<` comparison) |
| ChaikinPass.FirstMinimumExtends | src/polyhedron.py:296-323 | one more candidate replaces the pick only when strictly closer |
| ChaikinPass.ClosestNewNode | src/polyhedron.py:296-323 | the distance loop returns `Closest` |
| ChaikinPass.PairPicks | src/polyhedron.py:286-325 | for side i, the nearest sub-node of `ogroup[i-1]` to `ogroup[i]` and the nearest sub-node of `ogroup[i]` to `ogroup[i-1]` (with `i - 1 = -1` wrapping to the last) |
| ChaikinPass.SurfaceList | src/polyhedron.py:286-329 | succeeds exactly when every side has both picks; then it has 2·size entries, the two picks of side i at 2i and 2i + 1; on failure it gives the error of some side |
| ChaikinPass.SurfaceListFailure | src/polyhedron.py:286-329 | once a side fails, the whole list fails with that side's error |
| ChaikinPass.ResurfaceGroup | src/polyhedron.py:286-329 | the loop over one old face computes `SurfaceList` |
| ChaikinPass.KeepsPrefix | src/polyhedron.py:341-344 | adding edges keeps every connection |
| ChaikinPass.KeepsRepoint | src/polyhedron.py:199-200 | truncating a corner keeps every connection between other nodes |
| ChaikinPass.CornerOkKeeps | src/polyhedron.py:216-221 | a corner group keeps its properties while other corners are truncated |
| ChaikinPass.CornersSurviveTruncation | src/polyhedron.py:160-227 | the corners built so far survive the truncation of a later input node |
| ChaikinPass.CornersSurviveGrowth | src/polyhedron.py:341-344 | the corners survive the edges added later |
| ChaikinPass.FlattenSnoc | src/polyhedron.py:227 | the concatenated node list after one more block |
| ChaikinPass.CornersOkSnoc | src/polyhedron.py:216-221 | one more corner group |
| ChaikinPass.CollectedStep | src/polyhedron.py:224-227 | after truncating input node i, `node_virt_dict` maps it to its sub-nodes and the new node list grows by them |
| ChaikinPass.BlocksFromSnoc | src/polyhedron.py:224-227 | the sub-node blocks stay above the old nodes |
| ChaikinPass.CountingSnoc | src/polyhedron.py:227 | the new nodes are consecutive handles |
| ChaikinPass.VirtStep | src/polyhedron.py:224 | the dictionary holds exactly the input nodes seen so far |
| ChaikinPass.TruncateOne | src/polyhedron.py:160-227 | one iteration of the truncation loop: the corner group over consecutive new handles; the earlier corners are kept; the errors are an unknown edge type or an empty corner |
| ChaikinPass.TruncateNext | src/polyhedron.py:159-227 | one iteration of the first loop: it fails exactly when that corner fails, and it is then the first failing one; otherwise the corner group, the dictionary entry and the loop invariant hold one input node further |
| ChaikinPass.BlocksFromLower | src/polyhedron.py:224-227 | a weaker lower bound for the blocks |
| ChaikinPass.TruncateAll | src/polyhedron.py:160-227 | one new corner group per input node; `node_virt_dict` maps every input node to its block of sub-nodes; the new node list is exactly the new handles; the arena is `CutAsSpecified`: the coordinates are `CutCoords`, the input edges `CutEdges` and each block `SubsOf`. A failure is at the first input node whose corner fails, and names an unknown edge type exactly when that corner has one |
| ChaikinPass.ResurfaceOne | src/polyhedron.py:275-337 | orders the old face if needed (a broken face is an error), then builds a new ordered group whose `ogroup` is `SurfaceList` of that face, or returns its error |
| ChaikinPass.FaceOf | src/polyhedron.py:277-280 | the value an old face holds: its members and size, valid when the group is |
| ChaikinPass.FacesOf | src/polyhedron.py:277 | one value per old face, in order, inside the arena when the faces are |
| ChaikinPass.FaceCycle | src/polyhedron.py:280 | the cycle a face is resurfaced along has at least `size` entries, all members of the face |
| ChaikinPass.FaceSurface | src/polyhedron.py:280-329 | the node list of one old face: 2·size entries on success; an ordering failure exactly when the face is unordered and its walk breaks; otherwise only a missing dictionary entry or no closest node |
| ChaikinPass.FaceSurfaces | src/polyhedron.py:277-329 | one `FaceSurface` per old face, in order |
| ChaikinPass.ResurfaceRun | src/polyhedron.py:277-337 | the second loop passes exactly when every old face resurfaces; otherwise its error is that of the first face that does not |
| ChaikinPass.ResurfaceRunStops | src/polyhedron.py:277-337 | the loop stops at the first failing face, with its error |
| ChaikinPass.ResurfaceOutcome | src/polyhedron.py:277-344 | the second and third loops meet `ResurfacesTo`: Pass exactly when every old face resurfaces and none is empty; otherwise the first face's error, or the logarithm of zero from `inter_connect` on an empty face |
| ChaikinPass.SurfaceNonEmpty | src/polyhedron.py:331-334 | a rebuilt face is empty exactly when its old face is |
| ChaikinPass.ResurfaceNext | src/polyhedron.py:277-337 | one turn of the second loop: fails with that face's `FaceSurface` error, or rebuilds it and marks it done |
| ChaikinPass.ResurfaceAll | src/polyhedron.py:275-337 | the second loop computes `ResurfaceRun` of the old faces: it passes exactly when every old face resurfaces, and otherwise fails with the error of the first face that does not; on success one rebuilt face per old face, each as `ResurfaceOne` promises, and the old faces keep their sizes |
| ChaikinPass.ConnectSurfaces | src/polyhedron.py:341-344 | succeeds exactly when no rebuilt face is empty; then every rebuilt face has its ladder linked; the faces themselves are unchanged |
| ChaikinPass.Resurface | src/polyhedron.py:275-344 | the rebuilt faces, each with its ladder linked; the outcome meets `ResurfacesTo` over the arena as it was: Pass exactly when every old face resurfaces and none is empty, otherwise the first failing face's error or the logarithm of zero |
| ChaikinPass.SubdividedFrom | src/polyhedron.py:347-355 | the corner groups followed by the rebuilt faces form the pass's result |
| ChaikinPass.BlocksCollected | src/polyhedron.py:224-227 | the dictionary covers exactly the input nodes, and the new nodes are distinct arena nodes |
| ChaikinPass.ResurfaceBeside | src/polyhedron.py:275-355 | the groups list starts with the corners and then holds the rebuilt faces; the outcome meets `ResurfacesTo`, as for `Resurface` |
| ChaikinPass.Subdivide | src/polyhedron.py:160-355 | the truncation and resurfacing phases together meet `Subdivided`, over an arena whose coordinates and input edges are still those of `CutAsSpecified`. When some corner fails (`CornersPass` false) the pass fails at the first such node, naming an unknown edge type exactly when that corner has one; otherwise the outcome meets `ResurfacesTo` over the cut arena (its edges up to `cut`), so it passes exactly when every old face resurfaces and none is empty |
| ChaikinPass.Chaikin3D | src/polyhedron.py:117-355 | `n` of 0 or 1 fails with a division by zero and changes nothing. Otherwise it fails exactly as `Subdivide` says: at the first failing corner, or as `ResurfacesTo` says over the cut arena. On success the arena only grows; the new polyhedron has one corner group per old node and one rebuilt face per old face, and its nodes are every old node's sub-nodes. The arena is `CutAsSpecified`, so by `SubNodeOnItsEdge` and `EdgeCutAtBothEnds` each sub-node sits on its main edge at the base or special ratio and that edge is repointed to it |
| LegacyPolyhedra.CornersInTransitive | polyhedron.py:53-58 | containment of corners is transitive |
| LegacyPolyhedra.TriangleInList | polyhedron.py:52-58 | true exactly when the triangle is listed or some listed triangle contains its three corners (the two are equivalent) |
| LegacyPolyhedra.UniqueKeepsOrder | polyhedron.py:61-72 | the kept entries stay in front and the rest is a subsequence of the input |
| LegacyPolyhedra.UniqueApart | polyhedron.py:61-72 | no kept triangle holds the corners of another |
| LegacyPolyhedra.UniqueCovers | polyhedron.py:61-72 | every input triangle is covered by a kept one |
| LegacyPolyhedra.UniqueDropsEarlierCopy | polyhedron.py:64-67 | an entry covered by a later one is dropped: the later occurrence is kept |
| LegacyPolyhedra.CoveredWithoutCopy | polyhedron.py:52-58 | an entry whose corners a later entry holds adds nothing to what the list covers |
| LegacyPolyhedra.UniqueTriangles | polyhedron.py:60-72 | the in-place pop/insert loop leaves a subsequence of the input in which no entry holds another's corners and which covers every input triangle |
| LegacyPolyhedra.Touches | polyhedron.py:222-227 | the `for … else` search over the other old nodes; a missing dictionary entry is an error |
| LegacyPolyhedra.TouchesMeaning | polyhedron.py:222-227 | it is true exactly when the sub-node is linked to a sub-node of another old node of the face |
| LegacyPolyhedra.LinkedSubs | polyhedron.py:222-229 | the sub-nodes of one old node that touch another old node of the face, in order; on success exactly those, without duplicates when the sub-nodes have none; otherwise the error of some search |
| LegacyPolyhedra.LinkedSubsFailure | polyhedron.py:222-229 | a failed prefix makes the scan fail with that error |
| LegacyPolyhedra.NodePair | polyhedron.py:219-235 | the contribution of one old node: two of its sub-nodes, or nothing |
| LegacyPolyhedra.DistinctCount | polyhedron.py:229-231 | a duplicate-free list has as many members as entries |
| LegacyPolyhedra.NodePairMeaning | polyhedron.py:219-235 | the old node contributes its two sub-nodes exactly when exactly two of them touch another old node of the face; otherwise it contributes nothing ("Bizarre group found.") |
| LegacyPolyhedra.SurfaceItems | polyhedron.py:216-237 | the rebuilt face's members are exactly the contributions of its old nodes |
| LegacyPolyhedra.SurfaceItemsFailure | polyhedron.py:216-237 | a failed prefix fails the whole face |
| LegacyPolyhedra.SurfaceItemsBelow | polyhedron.py:216-237 | with a complete dictionary the face succeeds, and its members are arena nodes |
| LegacyPolyhedra.AnyLinked | polyhedron.py:224 | the inner comprehension is non-empty exactly when the sub-node is linked to one of the candidates |
| LegacyPolyhedra.TouchesOther | polyhedron.py:223-227 | the loop with its `break` computes `Touches` |
| LegacyPolyhedra.PickPair | polyhedron.py:219-235 | the loop over one old node computes `NodePair` |
| LegacyPolyhedra.LegacySurface | polyhedron.py:216-240 | a new unordered group over exactly the contributed sub-nodes, or the first error |
| LegacyPolyhedra.ItemsOf | polyhedron.py:216-219 | the members of each old face, in its own iteration order |
| LegacyPolyhedra.SurfaceRuns | polyhedron.py:216-237 | one `SurfaceItems` per old face, in order |
| LegacyPolyhedra.LegacyRun | polyhedron.py:213-240 | the earlier resurfacing loop meets `LegacyResurfacesTo`: it passes exactly when every old face resurfaces, and otherwise fails with the first failing face's error |
| LegacyPolyhedra.LegacyResurfaceAll | polyhedron.py:213-254 | the outcome meets `LegacyResurfacesTo` (passes exactly when every old face resurfaces, else the first failing face's error, always a missing dictionary entry); one unordered rebuilt face per old face. `group_objects` stays empty, so the ordering and connecting loops do nothing |
| LegacyPolyhedra.ConcatBlocks | polyhedron.py:257-260 | the new node list is the concatenation of every old node's sub-nodes in order |
| LegacyPolyhedra.LegacySubdividedFrom | polyhedron.py:257-264 | the corners and the unordered rebuilt faces form the legacy result, and its nodes are the concatenated blocks |
| LegacyPolyhedra.LegacyResurfaceBeside | polyhedron.py:213-264 | after truncation: the outcome meets `LegacyResurfacesTo`, so it fails exactly when some old face fails, with the first one's error, always a missing dictionary entry; otherwise the corners followed by the unordered rebuilt faces form the legacy result, its node list is the concatenated blocks, and the truncated arena is unchanged |
| LegacyPolyhedra.LegacySubdivide | polyhedron.py:131-260 | the truncation loop, the resurfacing loop and the node list: on success the legacy result over the cut arena, whose nodes are the concatenated blocks and whose coordinates and input edges are those of `CutAsSpecified`; the only errors are an unknown edge type, an empty corner or a missing dictionary entry. When some corner fails (`CornersPass` false) the pass fails at the first such node, naming an unknown edge type exactly when that corner has one; otherwise the outcome meets `LegacyResurfacesTo` over the old faces' members |
| LegacyPolyhedra.LegacyChaikin3D | polyhedron.py:106-264 | `n` of 0 or 1 fails and changes nothing. Otherwise the same truncation as the current pass (the arena is `CutAsSpecified`: sub-nodes at the base or special ratio on their repointed main edges), connectivity-based resurfacing, and a node list that is the concatenated blocks. The only errors are an unknown edge type, an empty corner or a missing dictionary entry: it fails at the first failing corner, or else exactly when some old face fails to resurface, with the first one's error (`LegacyResurfacesTo`) |
| WavefrontReader.Word | chaikin3d/wavefront_reader.py:59 | the leading run of non-space characters |
| WavefrontReader.Tokens | chaikin3d/wavefront_reader.py:59 | `filter(None, s.split())`: non-empty, whitespace-free tokens |
| WavefrontReader.WordOf | chaikin3d/wavefront_reader.py:59 | a token followed by a space or the end is read back whole |
| WavefrontReader.TokensOfJoin | chaikin3d/wavefront_reader.py:59 | splitting tokens joined by spaces gives them back |
| WavefrontReader.ParseInt | chaikin3d/wavefront_reader.py:70 | `int(s)`: succeeds exactly when what follows an optional sign is a valid digit string; a negative value needs a leading minus, and a leading minus gives no positive value |
| WavefrontReader.ShowNatValue | chaikin3d/wavefront_reader.py:70 | the digits of a numeral have its value |
| WavefrontReader.AllDigitsValid | chaikin3d/wavefront_reader.py:70 | `int` accepts every non-empty run of decimal digits |
| WavefrontReader.ParseIntOfShow | chaikin3d/wavefront_reader.py:70 | `int` reads back every numeral |
| WavefrontReader.ParseVertex | chaikin3d/wavefront_reader.py:59-63 | fails exactly when the line has fewer than three tokens, naming how many it has |
| WavefrontReader.VertexRoundTrip | chaikin3d/wavefront_reader.py:59-63 | a vertex line reads back its first three tokens, ignoring extra tokens such as w; `rotate` swaps y and z |
| WavefrontReader.VertexOfTokens | chaikin3d/wavefront_reader.py:59-63 | a line of three or more tokens reads as its first three, y and z swapped under `rotate` |
| WavefrontReader.FirstField | chaikin3d/wavefront_reader.py:70 | `s.split("/")[0]`: the prefix before the first '/' |
| WavefrontReader.FirstFieldOf | chaikin3d/wavefront_reader.py:70 | a field followed by '/' or the end is read back |
| WavefrontReader.FaceIndex | chaikin3d/wavefront_reader.py:70 | fails exactly when the first field is not an integer; otherwise the 0-based index, one less than the written one |
| WavefrontReader.FaceIndexOfShow | chaikin3d/wavefront_reader.py:70 | a token written 1-based, with or without `/vt/vn` fields, gives back the 0-based index |
| WavefrontReader.FaceIndices | chaikin3d/wavefront_reader.py:69-71 | on the mapped results of the tokens: succeeds exactly when every result is an index, giving them position by position; otherwise the error of some token |
| WavefrontReader.FaceIndicesFailure | chaikin3d/wavefront_reader.py:69-71 | once a token has failed, the later tokens change nothing: the first error is the line's |
| WavefrontReader.ParseFace | chaikin3d/wavefront_reader.py:68-75 | on success one index per token and at least three; the errors are a bad literal or fewer than three vertices |
| WavefrontReader.FaceRoundTrip | chaikin3d/wavefront_reader.py:68-75 | a face of three or more indices written 1-based reads back |
| WavefrontReader.FaceIndicesOfGood | chaikin3d/wavefront_reader.py:69-71 | tokens that all read give exactly those indices |
| WavefrontReader.ReadIndices | chaikin3d/wavefront_reader.py:69-71 | the collecting loop stops at the first failing token and otherwise gives every index, as `FaceIndices` states |
| WavefrontReader.ParseFaceOf | chaikin3d/wavefront_reader.py:68-75 | a face line gives the first token error, else its indices when there are three or more, else the count error |
| WavefrontReader.ReadFace | chaikin3d/wavefront_reader.py:68-75 | reading one face line computes `ParseFace` |
| WavefrontReader.Tagged | chaikin3d/wavefront_reader.py:47-52 | the lines with a given two-character prefix, prefix stripped |
| WavefrontReader.VertexRun | chaikin3d/wavefront_reader.py:58-65 | the vertices appended in order before the first failing line, and its error |
| WavefrontReader.FaceRun | chaikin3d/wavefront_reader.py:67-80 | the faces appended in order before the first failing line, and its error |
| WavefrontReader.TaggedSnoc | chaikin3d/wavefront_reader.py:47-52 | one more line is kept exactly when it has the prefix |
| WavefrontReader.TaggedAll | chaikin3d/wavefront_reader.py:47-52 | lines that all carry one prefix are all kept by it and none by another |
| WavefrontReader.TaggedConcat | chaikin3d/wavefront_reader.py:47-52 | classification distributes over concatenation |
| WavefrontReader.ObjRoundTrip | chaikin3d/wavefront_reader.py:44-80 | parsing a file written as vertex lines then face lines gives back exactly those vertices and faces |
| WavefrontReader.RunsOfGoodLines | chaikin3d/wavefront_reader.py:58-80 | lines that all read give all their values and no error |
| WavefrontReader.RunStep | chaikin3d/wavefront_reader.py:58-65 | one more vertex line |
| WavefrontReader.RunStopped | chaikin3d/wavefront_reader.py:58-65 | after the first failure nothing more is read |
| WavefrontReader.FaceRunStep | chaikin3d/wavefront_reader.py:67-80 | one more face line |
| WavefrontReader.FaceRunStopped | chaikin3d/wavefront_reader.py:67-80 | after the first failure nothing more is read |
| WavefrontReader.Classify | chaikin3d/wavefront_reader.py:47-52 | the classification loop keeps exactly the `v ` and `f ` lines, stripped |
| WavefrontReader.Reader.constructor | chaikin3d/wavefront_reader.py:14-27 | a reader with empty vertex and face lists |
| WavefrontReader.Reader.Open | chaikin3d/wavefront_reader.py:14-30 | with `parse_on_load` the lists are the parse of the file; otherwise empty |
| WavefrontReader.Reader.Parse | chaikin3d/wavefront_reader.py:32-80 | appends the parsed vertices and faces, in file order, and reports the first error |
| WavefrontReader.Reader.AppendVertices | chaikin3d/wavefront_reader.py:58-65 | the vertex loop appends `VertexRun` and leaves the faces alone |
| WavefrontReader.Reader.AppendFaces | chaikin3d/wavefront_reader.py:67-80 | the face loop appends `FaceRun` and leaves the vertices alone |
| WavefrontReader.Points | chaikin3d/wavefront_reader.py:65 | one point per vertex |
| WavefrontReader.Reader.ToPolyhedron | chaikin3d/wavefront_reader.py:82-93 | hands the lists to `from_standard_vertex_lists`: the arena gains one node per vertex at the read coordinates, each with exactly the edges created at it. It fails exactly when some face has an out-of-range index or is empty; otherwise each group is built over the nodes its face names, cycle-connected and ordered |
| PlotlyRenderer.Start | chaikin3d/plotly_renderer.py:64-76 | the cursor after `init_subplots`: active at (1, 1) with the given limits |
| PlotlyRenderer.RowMajor | chaikin3d/plotly_renderer.py:118-128 | the k-th cell in row-major order lies in the grid's columns |
| PlotlyRenderer.BelowGrid | chaikin3d/plotly_renderer.py:118-128 | k is below rows·cols exactly when its row is within the limit |
| PlotlyRenderer.FillStep | chaikin3d/plotly_renderer.py:118-128 | `next_subplot` moves the cursor from the k-th cell to the (k+1)-th |
| PlotlyRenderer.FillOrder | chaikin3d/plotly_renderer.py:78-88 | after k fills of a fresh grid the cursor is at the k-th cell in row-major order, active exactly while k < rows·cols |
| PlotlyRenderer.FillsCloseGrid | chaikin3d/plotly_renderer.py:118-128 | after rows·cols fills the renderer is inactive at (rows + 1, 1); a further fill changes nothing |
| PlotlyRenderer.RowMajorVisitsAll | chaikin3d/plotly_renderer.py:78-88 | the rows·cols fills reach every cell of the grid exactly once, in row-major order |
| PlotlyRenderer.RowMajorOrdered | chaikin3d/plotly_renderer.py:118-128 | a later fill is at a lexicographically later cell |
| PlotlyRenderer.Renderer.constructor | chaikin3d/plotly_renderer.py:39-51 | no active subplot and zero indices and limits |
| PlotlyRenderer.Renderer.InitSubplots | chaikin3d/plotly_renderer.py:64-76 | fails while a subplot is active or for a non-positive dimension, changing nothing; otherwise the cursor is at (1, 1) with the given limits |
| PlotlyRenderer.Renderer.NextSubplot | chaikin3d/plotly_renderer.py:118-128 | fails when inactive; otherwise at the last column the row advances, the column resets to 1, and the renderer deactivates past the last row; elsewhere the column advances |
| PlotlyRenderer.Renderer.FillSubplot | chaikin3d/plotly_renderer.py:78-88 | fails when inactive; otherwise draws into the current cell and advances the cursor exactly once |
| PlotlyRenderer.Renderer.AddToSubplot | chaikin3d/plotly_renderer.py:99-116 | fails when inactive, or when exactly one of the custom row and column is -1; otherwise the current cell or the custom one; the cursor never moves |
| PlotlyRenderer.Renderer.DrawSubplots | chaikin3d/plotly_renderer.py:130-139 | resets the cursor to inactive with all indices and limits 0 and keeps the figure; without a figure the call fails |
| PlotlyRenderer.Corners | chaikin3d/plotly_renderer.py:157-159 | three vertices per triangle, in order |
| PlotlyRenderer.Resolve | chaikin3d/plotly_renderer.py:157-166 | one triangle per index triple |
| PlotlyRenderer.IndexOf | chaikin3d/plotly_renderer.py:165 | `list.index(v)`: the first position holding v |
| PlotlyRenderer.Place | chaikin3d/plotly_renderer.py:160-165 | appends v if it is new and keeps the counter equal to the length; the index returned points at v |
| PlotlyRenderer.PlaceTriangle | chaikin3d/plotly_renderer.py:158-166 | after one triangle the list is the deduplicated corners so far, and its index triple resolves to the triangle |
| PlotlyRenderer.ExtendThree | chaikin3d/plotly_renderer.py:159-165 | placing a triangle's three vertices in turn extends the deduplicated vertex list by its corners |
| PlotlyRenderer.ExtendFaces | chaikin3d/plotly_renderer.py:157-166 | extending the vertex list keeps the meaning of the earlier index triples |
| PlotlyRenderer.DrawData | chaikin3d/plotly_renderer.py:151-171 | no triangles gives []. Otherwise the vertex list is the duplicate-free list of all corners in first-seen order, the counter equals its length, every index is in range, and the index triples resolve to exactly the input triangles |
| ArgUtils.Replace | chaikin3d/arg_utils.py:161 | `str.replace` of one character, position by position |
| ArgUtils.NormalKey | chaikin3d/arg_utils.py:159-164 | a normalised key contains no `_` and no `-` |
| ArgUtils.AttributeName | chaikin3d/arg_utils.py:201 | an attribute name contains no space |
| ArgUtils.AttributeOfNormalKey | chaikin3d/arg_utils.py:159-201 | an option's destination name is recovered as the attribute name of its normalised key |
| ArgUtils.AttributeNameInjective | chaikin3d/arg_utils.py:201 | distinct normalised keys give distinct attributes |
| ArgUtils.NormalKeys | chaikin3d/arg_utils.py:159-164 | the rebuilt dictionary has only normalised keys |
| ArgUtils.NormalKeysDomain | chaikin3d/arg_utils.py:159-164 | its keys are exactly the normalised input keys |
| ArgUtils.NormalKeysLastWins | chaikin3d/arg_utils.py:159-164 | when two keys collide after normalisation, the later item's value is kept |
| ArgUtils.Attributes | chaikin3d/arg_utils.py:198-203 | the attributes of the returned object contain no space |
| ArgUtils.AttributesMeaning | chaikin3d/arg_utils.py:198-203 | every key is reachable as an attribute with its value, and every attribute comes from a key |
| ArgUtils.DerivedKeysNormal | chaikin3d/arg_utils.py:177-196 | the derived keys keep the dictionary normalised |
| ArgUtils.ReadArgs | chaikin3d/arg_utils.py:130-203 | succeeds exactly when the normalised dictionary passes every check; then the result holds the derived entries and the attribute view; an error always names a real defect |
| ArgUtils.CheckArgs | chaikin3d/arg_utils.py:166-203 | the same checks in source order. A bad "order edges" value wins over everything; otherwise a bad output extension; an unknown renderer is rejected |
| ArgUtils.Derive | chaikin3d/arg_utils.py:177-196 | writes verbosity, verbose, "show main edges" = not "hide main edges", and the renderer class, and nothing else |
| ArgUtils.SetVerbosity | chaikin3d/arg_utils.py:177-184 | vverbose gives verbosity 2 and verbose true; otherwise verbosity 1 or 0 by the truthiness of verbose, which is kept |

## Left out

- `chaikin3d.py`, `chaikin3d/managers.py` and `setup.py` are not part of this model. They cover the command-line driver, the multi-pass managers and packaging.
- The node, edge, matrix and dataholders modules are not part of this model. Only the operations the core calls on them are modelled, in `MeshGraph`, with contracts inferred from their use. `Plane.point_on_plane` is a function parameter.
- Figures are left out: plotly figure objects, `make_subplots`, `show`, `write_html`, `gen_random_color`, colours, opacity and text labels. The renderer's figure is reduced to a flag saying whether one exists.
- Printing, `vprint`, timing and `sys.setrecursionlimit` are left out because they have no effect on the modelled state.
- `time.perf_counter` progress messages and the "Bizarre group found." message are left out. The missing contribution is modelled; the message is not.
- Floating-point arithmetic is left out. Coordinates are exact reals, and `np.float32` storage is not modelled, so there is no rounding.
- `WavefrontReader.ParseFace`: the `np.uint16` storage of face indices (chaikin3d/wavefront_reader.py:75-79) is not modelled, and indices stay unbounded integers. A token of 0 or below gives a negative index, which the model keeps and `PyIndex` then reads from the end of the node list (-1 is the last vertex). NumPy instead wraps such a value modulo 65536 or refuses it, depending on its version. An index above 65535 is likewise kept rather than wrapped.
- File reading is left out: the `.obj` file is given as its list of lines. `os.path.abspath` and the `isfile` assertion are not modelled.
- Number parsing is only partly modelled:
  - Coordinate tokens stay strings, and `float` is a function parameter of `ToPolyhedron`.
  - `int` accepts an optional sign, ASCII digits and underscores between digits. Surrounding whitespace and non-ASCII digits are not modelled.
- argparse is left out: `read_args` takes the parsed dictionary as its input.
- The dynamic import of a renderer class is an enumeration value.
- The synthesised class `A` is left out; its attributes are modelled as a map. The `__getitem__` entry of that class, which a key named `__getitem__` could overwrite, is not modelled.
- `Group(iterable, do_order=True)` is not modelled. No caller in the core passes it.
- `ChaikinGroups.Group.Triangles`: returns the list rather than an iterator over it.
- `PlotlyRenderer.Renderer.AddToSubplot`: the `function` argument of the legacy version, which selects another plotting call, is not modelled.
- `PlotlyRenderer.Renderer.DrawSubplots`: the returned figure of the current version is not modelled. The legacy version returns nothing.
- `PlotlyRenderer.DrawData`: the triangles are a parameter. The `type_` selection between iterating the polyhedron and `_iter_triangles`, and the legacy `_hash_iter_triplets`, are not modelled. Building `go.Mesh3d` is not modelled either.
- `WavefrontReader.Reader.ToPolyhedron`: `to_polyhedron` passes a third argument, the verbose flag (chaikin3d/wavefront_reader.py:91-93). Neither `from_standard_vertex_lists` accepts one (src/polyhedron.py:72-74, polyhedron.py:75), so the call as written raises a `TypeError`. The model assumes the two-argument call.
- `ChaikinPass.TruncateAll`: `new_node_list.extend(group.group)` (src/polyhedron.py:227) reads an attribute that `Group` does not define (chaikin3d/chaikin_groups.py:29-36). The model assumes it means the corner's sub-nodes in creation order, the same list `node_virt_dict` receives. Reading it as the ordered cycle `ogroup` would put the new nodes in another order.
- `Truncation.TruncateEdge`: the edge `C.Edge(sub_node, partner_node, "main")` built for each sub-node (src/polyhedron.py:195; `C.Connection` at polyhedron.py:157) is assumed not to add itself to either node's edge list. It is never used afterwards, so the model does not create it. The edge module is not part of this model.
- `LegacyPolyhedra.UniqueTriangles`: the list is passed by value. `unique_triangles` pops and inserts on the caller's own list (polyhedron.py:60-72), so the caller sees it shrink in place. The model does not capture that aliasing; it returns the list's final content, which is what the method yields.
- Object identity of groups is left out. Two different groups with the same nodes are different objects, as in Python, and the model does not deduplicate groups by content.
