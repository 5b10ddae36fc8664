# CellMesh topology in Dafny

A model of the topology half of `CellMesh`, the triangular cell-surface mesh of
the DeformableCellModel simulator. From the face list (each face an ordered
triple of node indices) the constructor builds

- `edges_`: the canonical undirected edges `(min, max)`, each found by a linear
  `std::find` over the list so far and appended only when missing;
- `adjacent_faces_for_edges_`: parallel to `edges_`, entry k the set of faces
  having `edges_[k]` as an edge;
- `adjacent_faces_for_nodes_`: one set per node, the faces that reference it;

and then `MakeFacesOriented` rewrites each face whose winding points inwards
from `{n_1, n_2, n_3}` to `{n_1, n_3, n_2}`.

Two modules:

- `MeshTopology` (`topology.dfy`): faces and edges as values; `FaceEdges`, the
  three canonical edges of a face in the order a `std::set` of pairs visits
  them (ascending lexicographic order, duplicates merged); `Scan`, the
  find-or-append step; `EdgeList`, the edge list built face by face;
  `FacesOfEdge` and `FacesOfNode`, the adjacency each entry must equal; the
  orientation step `Orient`; and the lemmas that state what the construction
  guarantees.
- `CellMeshModel` (`cell_mesh.dfy`): `Find` (the `std::find` +
  `std::distance` lookup) and the class `CellMesh`. Its fields are the
  vectors the source mutates. Its methods run the source's loops in place, and
  their postconditions tie the new fields to the functions above. `Valid()` is
  the object invariant: the edge list and both adjacencies are those of the
  current faces. `MakeFacesOriented` preserves it.

The constructor finds each edge with a linear `std::find` scan over the list
built so far (CellMesh.cpp:82). It does not check that every edge has exactly
two faces. It does not check that face indices are in range either: line 101
indexes `adjacent_faces_for_nodes_` unchecked, and an out-of-range index is
undefined behaviour, so `BuildNodeAdjacency` and the constructor require
`FacesInRange`.

## Model

| member | source | states |
|---|---|---|
| `MeshTopology.Face.Nodes` | CellMesh.cpp:99-102 | the nodes a range-for over a face visits are its three indices, with multiplicity, and hold exactly the face's vertex set |
| `MeshTopology.FaceEdgeSet` | CellMesh.cpp:75-78 | the set `{e_1, e_2, e_3}` holds only canonical edges whose two ends are nodes of the face |
| `MeshTopology.Canon` | CellMesh.cpp:75-77 | the edge built from two nodes is canonical (first index <= second) and is the same unordered pair |
| `MeshTopology.InsertSorted` | CellMesh.cpp:78 | inserting into an ordered set of pairs keeps it strictly ascending and holds exactly the old elements plus the new one |
| `MeshTopology.FaceEdges` | CellMesh.cpp:75-80 | the edges a face's loop visits are strictly ascending and are exactly the face's canonical edges e_1, e_2, e_3 (duplicates merged) |
| `MeshTopology.SortedUnique` | CellMesh.cpp:78-80 | a set of pairs has one iteration order: two strictly sorted sequences with the same elements are equal |
| `MeshTopology.Scan` | CellMesh.cpp:80-92 | find-or-append keeps the existing list as a prefix, and afterwards the list holds exactly the old edges plus the looked-up ones |
| `MeshTopology.ScanDistinct` | CellMesh.cpp:82-91 | appending only edges that `std::find` misses keeps the list free of duplicates |
| `MeshTopology.ScanAppendsNew` | CellMesh.cpp:80-92 | whatever one face appends was not in the list before and is one of that face's edges |
| `MeshTopology.ScanAppendsInOrder` | CellMesh.cpp:80-92 | what one face appends comes in ascending order, the order of the set of its edges |
| `MeshTopology.EdgeList` | CellMesh.cpp:69-93 | the edge list after the whole edge loop: each face's edges, in set order, looked up and appended when missing; no contract of its own, its properties are the lemmas EdgeListCanonical, EdgeListDistinct, EdgeListCovers, EdgeListOrder and EdgeListPrefix below |
| `MeshTopology.EdgeListCanonical` | CellMesh.cpp:69-93 | every edge in `edges_` is canonical |
| `MeshTopology.EdgeListDistinct` | CellMesh.cpp:82-91 | `edges_` has no duplicate |
| `MeshTopology.EdgeListCovers` | CellMesh.cpp:69-93 | an edge is in `edges_` exactly when it is a canonical edge of some face |
| `MeshTopology.FirstFace` | CellMesh.cpp:69-93 | the index of the first face having an edge: that face has it, no earlier face does, and it is the face count when no face has it |
| `MeshTopology.EdgeListOrder` | CellMesh.cpp:69-93 | edges appear in order of the first face having them, and edges first met on the same face appear in ascending order |
| `MeshTopology.EdgeListPrefix` | CellMesh.cpp:85-90 | later faces only append: the edge list of the first n faces is a prefix of the edge list of all faces, so an edge keeps the index it was given |
| `MeshTopology.OnSomeFaceSnoc` | CellMesh.cpp:69-93 | an edge is on one of the first f+1 faces exactly when it is on one of the first f faces or on face f |
| `MeshTopology.FacesOfEdgeSnoc` | CellMesh.cpp:86-90 | adding face f adds f to the adjacent faces of exactly its own canonical edges |
| `MeshTopology.FacesOfNodeSnoc` | CellMesh.cpp:99-102 | adding face f adds f to the adjacent faces of exactly its own nodes |
| `MeshTopology.RecordKnownEdge` | CellMesh.cpp:83-86 | inserting f into the entry of an edge found at its index records f for that edge and for no other |
| `MeshTopology.RecordNewEdge` | CellMesh.cpp:87-91 | pushing a new edge together with the set {f} keeps the lists parallel and gives the new edge exactly the face f |
| `MeshTopology.PartialAdjacencyFinish` | CellMesh.cpp:80-92 | once all of face f's edges are processed, every entry equals the set of faces among faces 0..f that have that edge |
| `MeshTopology.Swap23` | CellMesh.cpp:281 | the face rewritten as `{n_1, n_3, n_2}`; no contract of its own, its properties are the lemmas SwapKeepsNodes and SwapKeepsEdges below |
| `MeshTopology.SwapKeepsNodes` | CellMesh.cpp:281 | `{n_1, n_3, n_2}` keeps the first index, the vertex multiset and the vertex set of the face |
| `MeshTopology.SwapKeepsEdges` | CellMesh.cpp:281 | `{n_1, n_3, n_2}` has the same canonical edges as `{n_1, n_2, n_3}` |
| `MeshTopology.Orient` | CellMesh.cpp:279-282 | one step of the orientation loop: a face the sign test flags is swapped, any other is kept; no contract of its own, its properties are the lemma OrientKeepsFace below |
| `MeshTopology.Oriented` | CellMesh.cpp:269-283 | the orientation pass keeps the number of faces |
| `MeshTopology.OrientKeepsFace` | CellMesh.cpp:279-282 | a face is left alone or becomes `{n_1, n_3, n_2}`; either way its first index, vertex multiset and edge visiting order are unchanged |
| `MeshTopology.OrientedKeepsEdgeList` | CellMesh.cpp:258-284 | building the edge list from the re-oriented faces gives the same list, order included |
| `MeshTopology.OrientedKeepsAdjacency` | CellMesh.cpp:258-284 | re-orienting changes no edge's adjacent faces, no node's adjacent faces, and keeps all indices in range |
| `MeshTopology.OrientedKeepsTopology` | CellMesh.cpp:96-109 | the topology built before `MakeFacesOriented` runs is still exactly the topology of the re-oriented faces |
| `CellMeshModel.Find` | CellMesh.cpp:82-85 | the index returned is that of the first occurrence of the edge, or the list length (the end iterator) when the edge does not occur |
| `CellMeshModel.CellMesh.BuildEdges` | CellMesh.cpp:64-94 | after the edge loop, `edges` is the edge list of the faces and entry k of the edge adjacency is exactly the set of faces having `edges[k]`; nothing else changes |
| `CellMeshModel.CellMesh.RecordFaceEdges` | CellMesh.cpp:71-92 | one pass for face f extends the edge list and adjacency of faces 0..f-1 to those of faces 0..f |
| `CellMeshModel.CellMesh.RecordEdge` | CellMesh.cpp:82-91 | one find-or-insert step extends the edge list exactly as a scan step does and records face f for that edge alone |
| `CellMeshModel.CellMesh.BuildNodeAdjacency` | CellMesh.cpp:96-103 | the node adjacency has one entry per node, and f is in entry v exactly when v is a node of face f; nothing else changes |
| `CellMeshModel.CellMesh.MakeFacesOriented` | CellMesh.cpp:258-284 | each face is replaced by its oriented form, edges and adjacency are untouched, and the object invariant still holds |
| `CellMeshModel.CellMesh.constructor` | CellMesh.cpp:64-109 | the pipeline (edges, node adjacency, orientation) yields a valid mesh whose faces are the re-oriented input and whose edges are canonical, distinct and those of the input faces |

## Left out

- Reading the OFF file: the hard-coded path, the header and count parsing, `exit(-1)` when the file cannot be opened (CellMesh.cpp:34-62, 112-117). These are I/O and process termination. The constructor takes the node count and the face list as parameters. `off_fine_name` is never read (line 34 hard-codes the path), and `parameters` is used only for the radius at line 53, which belongs to the rescaling left out below; both are dropped.
- Node positions and their rescaling onto the sphere with `std::hypot` (CellMesh.cpp:47-55). This is floating-point work; the model keeps only the node count.
- Face areas (Heron), node areas, cell surface area and cell volume (CellMesh.cpp:105-108, 167-208, 228-256). This is floating-point geometry. The division at line 190 by an adjacency size that can be zero is not modelled either.
- Face and node normals (CellMesh.cpp:110, 286-327). These are floating point and calls into Eigen.
- The centre of mass and the sign test of `MakeFacesOriented` (CellMesh.cpp:260-265, 274-279). This is floating point; the test becomes the parameter `negative: Face -> bool`, a function of the face's current index triple (node positions do not change during the pass). Only the structural effect of the swap is proved, not that the result faces outward.
- The getters, the setter of the initial volume, the destructor and the default constructor (CellMesh.cpp:15-26, 120-165, 210-223). They hold no logic.
- The local `n_edges = edges_.size()` (CellMesh.cpp:94): it is never read again.
- `BuildNodeAdjacency` requires the node adjacency to be empty, as it is in the constructor, so `resize` is modelled as creating `nodeCount` empty sets. Resizing a non-empty vector is not modelled.
- Integer widths: node indices, face indices and counts are unbounded integers. The face counter `f` cannot overflow: `faces_.size()` is at most `n_faces`, itself a parsed `int` (lines 44, 58). `edge_idx` (lines 68, 85) is below 3·`n_faces`, so it could pass 2^31 only on a mesh of more than about 700 million faces, which the quadratic `std::find` scan could never process. Overflow is therefore not modelled.
- A negative node count: `n_nodes` (CellMesh.cpp:44) is a parsed `int` and can be negative, and `resize` at line 96 would then fail. The model takes the node count as a `nat`, so this failure is not modelled.
- A check that every edge has exactly two faces: the source has none, so the model has none.
