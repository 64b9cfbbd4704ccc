# EmbedMOF combinatorial core in Dafny

This project models the combinatorial core of EmbedMOF. EmbedMOF takes a periodic net (a
framework's quotient graph with lattice translations on its edges) and tries to realise it as a
periodic polyhedral surface. The model covers five steps:

- **Half-edges** (`halfedges.dfy`, module `Halfedges`). Each edge endpoint is split into a lattice
  cell and a fractional position, and the position is looked up among the vertices. One
  representative per undirected edge is kept and stored as a pair of opposite half-edges. The
  inversions pair half-edge `2k` with `2k + 1`.
- **Normal orientation** (`dfs_normal.dfy`, module `DfsNormal`). A depth-first walk from vertex 0
  negates every unvisited neighbour's normal whose dot product with the current normal is not
  positive. It reports whether the propagation met a clash. A `true` verdict means the visited
  normals agree along every edge. When the adjacency comes from paired half-edges (so it is
  symmetric), they agree strictly: every edge between visited vertices joins normals with a
  positive dot product. Normals that are already consistent come back unchanged with `true`.
- **Rotation system and face tracing** (`make_faces.dfy`, module `MakeFaces`). Each vertex's
  half-edges are ordered cyclically; the order is given as input. The faces are the orbits of the
  face successor `rotations[inversions[h]]`. A half-edge is marked visited only when the walk
  reaches it with zero accumulated lattice offset. The net is trivial when every face has zero net
  translation.
- **STL export combinatorics** (`export_stl.dfy`, module `ExportStl`). This covers:
  - the lattice offset of each corner of a face;
  - the flat-face/band classification;
  - `find_dup`, the search for the shortest window of a cyclic vertex list that reappears reversed;
  - the triangle fan of `draw_polygon`.
- **Shared vocabulary**:
  - `cells.dfy` (`Cells`): integer lattice translations.
  - `periodic_graph.dfy` (`PeriodicGraph`): half-edge records, cell sums along walks, permutations,
    and the tail-indexed adjacency.
  - `wrappers.dfy` (`Wrappers`): `Option` and `Result`.

Floating-point inputs are turned into parameters:

- Fractional coordinates are exact `real`s.
- The tolerance test `np.allclose` becomes a caller-supplied predicate `close`.
- Vertex normals are exact `real` vectors given as input.
- The angular sort at each vertex is a given permutation `orders[v]` of the positions in `adj[v]`.

The source raises in two places, and the model returns a `Failure` there instead:

- `neighbors[0]` on a vertex with no half-edges gives `IsolatedVertex`.
- `visited[0]` on an empty vertex list gives `NoVertices`.

A caught `ValueError` for an unresolvable edge endpoint is recorded in a `failures` list.

Behaviour of the code that the model keeps:

- The face loop can emit the same orbit more than once, so a half-edge lies on at least one face,
  not necessarily on exactly one. A half-edge met at a nonzero offset stays unvisited and later
  starts a walk of its own. When no half-edge crosses a cell boundary the faces are disjoint.
- An early stop in `dfs` (`return`) ends only the current frame. The calling frames carry on with
  their remaining neighbours.
- The triviality check returns a plain boolean without naming the offending face.
- No degenerate-rotation error is raised.

## Model

| member | source | states |
|---|---|---|
| Halfedges.SplitCoordinate | Halfedges.py:91-92 | the floor part and the remainder of a coordinate: remainder in [0, 1) and remainder + floor equals the coordinate |
| Halfedges.SplitPoint | Halfedges.py:91-95 | each endpoint splits into a cell and a position in the unit cell, and translating the position by the cell gives the endpoint back |
| Halfedges.ClampCoordinate | Halfedges.py:66 | the clamped coordinate is below 1.0; a coordinate below 1.0 is kept, any other becomes 0.0 |
| Halfedges.ClampVertices | Halfedges.py:65-66 | same number of vertices; every coordinate is below 1.0; vertices already in the unit cell are unchanged; a coordinate at or above 1.0 becomes 0.0 |
| Halfedges.FindVertexFrom | Halfedges.py:81-85 | the scan from position `from` returns the first index whose vertex is close to the target, and returns None exactly when no vertex from there on is close |
| Halfedges.FindVertex | Halfedges.py:81-85 | `find_vertex_index` returns the smallest matching index, or None exactly when no vertex matches |
| Halfedges.AppendPair | Halfedges.py:102-104 | two appended half-edges, the second the reverse of the first (tail and head swapped, cell negated); the alternating inversion pattern and the pairing are preserved |
| Halfedges.PairingExtends | Halfedges.py:102-104 | appending a half-edge, its reverse and the two crossed inversions keeps every half-edge paired with its reverse by an involution |
| Halfedges.AddEdge | Halfedges.py:90-106 | fails exactly when an endpoint is unresolved, and then both lists are unchanged; an edge the filter rejects leaves both lists unchanged; a kept edge appends `[v1, v2, cell2 - cell1]` and its reverse with inversions `n+1, n`; pairing, the 2k/2k+1 pattern and endpoint bounds are preserved |
| Halfedges.BuildHalfedges | Halfedges.py:89-106 | the half-edge list is the kept edges' half-edges in edge order; the inversions alternate 2k/2k+1 and pair each half-edge with its reverse; endpoints are vertex indices; `failures` lists, ascending, exactly the edges with an unresolved endpoint |
| Halfedges.KeptHalfedgesSound | Halfedges.py:98-104 | every entry of the half-edge list is the half-edge of some resolved, kept edge, as written or reversed |
| Halfedges.KeptHalfedgesComplete | Halfedges.py:98-104 | every resolved edge that passes the filter appears in the list in both directions |
| Halfedges.AlternatingIsInvolution | Halfedges.py:104 | the alternating inversion list is a fixed-point-free involution |
| PeriodicGraph.PairingIsPermutation | Halfedges.py:102-104 | an inversion list pairing every half-edge with its reverse is a permutation |
| PeriodicGraph.TailIndices | MakeFaces.py:12-14 | the adjacency list of `v` holds half-edge indices with tail `v`, strictly ascending, without repeats |
| PeriodicGraph.TailIndicesComplete | MakeFaces.py:12-14 | every half-edge with tail `v` is in the adjacency list of `v` |
| MakeFaces.BuildAdjacency | MakeFaces.py:12-14 | the adjacency loop builds, for every vertex, exactly the ascending list of the indices of its outgoing half-edges |
| MakeFaces.Around | MakeFaces.py:40-41 | the half-edge at position `i` of the order around `v` is a half-edge leaving `v` |
| MakeFaces.AroundInjective | MakeFaces.py:38-41 | different positions of the order around `v` name different half-edges |
| MakeFaces.OrderPosition | MakeFaces.py:39-42 | every half-edge sits at some position of the order around its tail |
| MakeFaces.NextModulo | MakeFaces.py:41 | the next position is `(i + 1) % k` |
| MakeFaces.Rotations | MakeFaces.py:22-42 | the rotation system gives every half-edge a successor, and that successor leaves the same vertex |
| MakeFaces.RotationFollowsOrder | MakeFaces.py:39-42 | the half-edge at position `i` around `v` is followed by the one at position `(i + 1) % k` |
| MakeFaces.RotationsArePermutation | MakeFaces.py:22-42 | the rotation successor is a permutation of the half-edges |
| MakeFaces.RotationCyclesAround | MakeFaces.py:39-42 | the rotation steps through the half-edges around `v` in the sorted order and wraps from the last to the first |
| MakeFaces.RotationSingleCycle | MakeFaces.py:36-42 | around every vertex the rotation is a single cycle of length `deg(v)`: `deg(v)` steps return to the start, fewer do not, and every half-edge of the vertex is reached |
| MakeFaces.BuildRotations | MakeFaces.py:22-42 | fails exactly when some vertex has no half-edge, and then names the first such vertex; otherwise returns the rotation system, which is a permutation |
| MakeFaces.RotateAll | MakeFaces.py:23-42 | the vertex loop stops at the first vertex of degree 0; if there is none, every half-edge has its successor filled in |
| MakeFaces.RotateVertex | MakeFaces.py:39-42 | the inner loop fills in the successor of exactly the half-edges leaving `v` and leaves the others unchanged |
| MakeFaces.OrbitWalkJoins | MakeFaces.py:55 | along a face each half-edge starts where the previous one ends, cyclically |
| MakeFaces.SuccessorLeavesWalk | MakeFaces.py:55-58 | a successor that does not close the walk is not yet on it, so no half-edge repeats within a face |
| MakeFaces.WalkFace | MakeFaces.py:48-60 | the walk returns the orbit of the start, without repeats and closing at the start; a half-edge of the walk is marked iff it was marked before or the cells before it in the walk sum to zero; nothing outside the walk changes |
| MakeFaces.TraceFaces | MakeFaces.py:45-60 | every face is a face-successor orbit, faces start at ascending half-edges, and afterwards every half-edge is visited and lies in some face; a face starts only at a half-edge that no earlier face reached with zero offset, and every half-edge that starts no face was reached with zero offset by a face with a smaller start |
| MakeFaces.FacesDisjointWhenCellsZero | MakeFaces.py:47-60 | when every half-edge has zero cell, no half-edge lies on two of the traced faces |
| MakeFaces.TrivialFaces | MakeFaces.py:62-70 | the net is trivial iff every face's cells sum to zero |
| DfsNormal.NeighboursFollowTails | DFSNormal.py:14-16 | the `(head, cell)` list of `v` matches, position by position, the half-edges with tail `v` in index order |
| DfsNormal.BuildNeighbours | DFSNormal.py:14-16 | the adjacency loop builds the `(head, cell)` list of each vertex, and every listed neighbour is a vertex |
| DfsNormal.Visit | DFSNormal.py:37-49 | a frame starts on an unvisited vertex and marks it; the vertex's own normal is kept; other normals change only by one negation while unvisited; visited normals are frozen; the frame count grows by the number of newly visited vertices; the unvisited count strictly drops |
| DfsNormal.Scan | DFSNormal.py:40-49 | the neighbour loop only extends the state in the same way, and leaves the frame's vertex visited with its normal unchanged |
| DfsNormal.ScanStopsAtClash | DFSNormal.py:43-46 | a visited neighbour with non-positive dot product ends the scan of the frame: the stop is recorded and no later neighbour is visited or flipped |
| DfsNormal.VisitReaches | DFSNormal.py:37-49 | every vertex a frame newly visits is reachable from the frame's vertex |
| DfsNormal.VisitSettles | DFSNormal.py:37-49 | when no frame stopped, every newly visited vertex has all its neighbours visited, with a non-negative dot product between the two normals, and a positive one when the adjacency is symmetric |
| DfsNormal.VisitMeetsClash | DFSNormal.py:40-46 | a frame on `u` that has a visited neighbour `v` whose normal has non-positive dot product with `u`'s stops |
| DfsNormal.VisitStopClashes | DFSNormal.py:43-46 | a frame that stops leaves two visited neighbours whose normals have non-positive dot product |
| DfsNormal.Propagate | DFSNormal.py:33-51 | after `dfs(0)` vertex 0 is visited with its normal unchanged; each normal is the input or its negation on a visited vertex; the number of frames equals the number of visited vertices |
| DfsNormal.Orient | DFSNormal.py:33-53 | fails exactly on an empty vertex list; otherwise it reports the propagated normals and visited flags, with at most `|V|` frames |
| DfsNormal.OrientAsWritten | DFSNormal.py:35-53 | the verdict the program prints is always `true`; everything else equals `Orient` |
| DfsNormal.OrientVisitsOnlyReachable | DFSNormal.py:37-51 | every visited vertex is reachable from vertex 0 |
| DfsNormal.OrientSound | DFSNormal.py:37-51 | with verdict `true` the visited vertices are exactly those reachable from vertex 0, and every adjacency entry leaving them joins normals with non-negative dot product |
| DfsNormal.OrientSoundSymmetric | DFSNormal.py:37-51 | on a symmetric adjacency, with verdict `true` every adjacency entry leaving a visited vertex joins normals with positive dot product |
| DfsNormal.OrientIdempotent | DFSNormal.py:37-51 | on normals where every adjacency entry already has a positive dot product, the propagation flips no sign and the verdict is `true` |
| DfsNormal.OrientTwice | DFSNormal.py:37-51 | on a symmetric adjacency, when a `true` run visits every vertex, running the propagation again on its output changes nothing and again reports `true` |
| DfsNormal.PairedNeighboursSymmetric | DFSNormal.py:14-16 | an adjacency built from half-edges paired with their reverses is symmetric: if `u` lists `v`, then `v` lists `u` |
| DfsNormal.OrientFailureHasClash | DFSNormal.py:43-46 | with verdict `false` two visited neighbours have normals with non-positive dot product |
| DfsNormal.AsWrittenReportsClashAsSuccess | DFSNormal.py:43-53 | on a two-vertex net with perpendicular normals, the program as written prints `true` although the propagation met a clash |
| ExportStl.FaceCorners | ExportSTL.py:72-79 | corner `k` of a face is the tail of its `k`-th half-edge, offset by the cells of the first `k` half-edges; the final offset is the face's net cell |
| ExportStl.CornersFollowFace | ExportSTL.py:48-56 | on a traced face, half-edge `k` runs from corner `k` to corner `k + 1`, and the last one ends at the first corner shifted by the net cell |
| ExportStl.NetCell | ExportSTL.py:113-116 | the loop computes the face's cell sum |
| ExportStl.ClassifyFaces | ExportSTL.py:112-120 | a face is drawn flat iff its cell sum is zero, otherwise as a band |
| ExportStl.ClassificationAgreesWithTracer | ExportSTL.py:117 | all faces are drawn flat iff the triviality check of the tracer holds |
| ExportStl.MatchesReversed | ExportSTL.py:27-31 | the `k` loop accepts iff the window at `j` matches the window at `i` read backwards |
| ExportStl.FirstPartner | ExportSTL.py:24-37 | the `j` loop returns the smallest `j != i` with a reversed match, or None iff there is none |
| ExportStl.FirstAtLength | ExportSTL.py:22-37 | for a fixed length, returns the first `(i, j)` in search order with a reversed match, or None iff there is none |
| ExportStl.FindDup | ExportSTL.py:19-38 | None iff no length in `2..n//2` and starts `i != j` match reversed; otherwise the indices are below `n`, `i2 != i1`, `j1`/`j2` are `(i+length-1)%n`, the windows match reversed, and no earlier `(length, i, j)` in search order matches |
| ExportStl.NoDupBelowFour | ExportSTL.py:20-21 | with fewer than four entries there is no match to find |
| ExportStl.DrawPolygon | ExportSTL.py:42-46 | exactly `len(vlist)` triangles are appended after the existing ones, triangle `i` being `(center, vlist[i], vlist[(i+1)%n])` |
| ExportStl.FanCloses | ExportSTL.py:45-46 | every triangle has the center as apex, each triangle ends where the next begins, cyclically, and the middle corners are exactly the polygon's vertices |

## Left out

- Halfedges.py:
  - the external tool call, the parsing of its output, the cell-parameter trigonometry, the
    fractional-to-Cartesian matrix product and the JSON output, because these are I/O and
    floating point;
  - the printing of caught errors, which is modelled as the `failures` list.
- Floating point in general:
  - coordinates are exact reals, so rounding of `math.floor` near integers is not modelled;
  - `np.allclose` is an abstract predicate.
- DFSNormal.py:
  - the SVD normal fit, because normals are inputs;
  - the recursion limit of 10000, because the recursion is modelled without a bound;
  - the JSON write.
- DfsNormal.Orient: gives the evidently intended verdict but keeps the code's control flow. A stop
  ends only the current frame, and the callers keep propagating; it does not abort the whole walk.
  A `false` verdict shows a clash in the final state (DfsNormal.OrientFailureHasClash), not that
  no consistent choice of signs exists; the depth-first greedy flip does not search for one.
- MakeFaces.py:
  - the `angle`/`atan2` key and the reference direction, because the sort is the input permutation
    `orders[v]`;
  - the JSON load/dump and the printed messages.
- MakeFaces.WalkFace / MakeFaces.TraceFaces: need the inversion and rotation lists to be
  permutations. This is what guarantees that a walk returns to its start. Those inputs are
  established by Halfedges.AlternatingIsInvolution, PeriodicGraph.PairingIsPermutation and
  MakeFaces.RotationsArePermutation.
- MakeFaces.TraceFaces: does not claim that the faces are distinct orbits, because the code can
  repeat one when cells are nonzero (see above); MakeFaces.FacesDisjointWhenCellsZero covers the
  case with all cells zero.
- MakeFaces.BuildAdjacency: states completeness through PeriodicGraph.TailIndicesComplete rather
  than in its own contract.
- ExportSTL.py:
  - the duplicate-splicing loop of `draw_face`, the line projection and quad fan of `draw_band`,
    the centroid (`np.mean`, which is the `center` parameter), the Cartesian offsets
    `vertices[v] + cell · periods` (a corner is kept as its vertex index and cell), and `write_stl`;
    these are floating point or file output.
  - `draw_band`'s corner loop is the same as `draw_face`'s and is covered by
    ExportStl.FaceCorners.
- CheckEmbed.py, Coplanar.py, Orthogonal.py, DrawSurface.py and DrawNetwork.py are not part of
  this model: floating-point geometry, SVD and OpenGL rendering.

## Findings

| source | as written | input that shows it | evidently intended | confidence | as-written member | corrected member |
|---|---|---|---|---|---|---|
| DFSNormal.py:35-53 | `success = False` inside `dfs` binds a new local name of the frame, so the module-level `success` stays `True` and `true` is always printed | two vertices joined both ways, normals (1,0,0) and (0,1,0): vertex 1 is negated and visited, then its frame meets visited vertex 0 with dot product 0 | print `false` when some frame meets a visited neighbour with non-positive dot product | not executed | DfsNormal.OrientAsWritten, DfsNormal.AsWrittenReportsClashAsSuccess | DfsNormal.Orient, DfsNormal.OrientSound, DfsNormal.OrientFailureHasClash |
