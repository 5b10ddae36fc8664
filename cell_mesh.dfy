/** The topology-building part of the CellMesh constructor and the orientation
    fix-up, as a class whose fields the methods update in place. */
module CellMeshModel {
  import opened MeshTopology

  /** Linear search with std::find: the index of the first occurrence of e in
      s, or |s| (the end iterator) when e does not occur. */
  method Find(s: seq<Edge>, e: Edge) returns (idx: nat)
    ensures idx <= |s|
    ensures idx < |s| ==> s[idx] == e
    ensures forall i :: 0 <= i < idx ==> s[i] != e
  {
    idx := 0;
    while idx < |s| && s[idx] != e
      invariant idx <= |s|
      invariant forall i :: 0 <= i < idx ==> s[i] != e
    {
      idx := idx + 1;
    }
  }

  class CellMesh {
    /** Number of nodes (the positions themselves are not modelled). */
    const nodeCount: nat
    var faces: seq<Face>
    var edges: seq<Edge>
    var adjacentFacesForEdges: seq<set<int>>
    var adjacentFacesForNodes: seq<set<int>>

    /** The topology agrees with the faces: the edge list is the one built
        from them, entry k of the edge adjacency belongs to edges[k], and
        there is one node adjacency entry per node. */
    ghost predicate Valid()
      reads this
    {
      Topology(faces, nodeCount, edges, adjacentFacesForEdges, adjacentFacesForNodes)
    }

    /** The construction pipeline restricted to topology: build the edges
        with their adjacent faces, then the node adjacency, then orient the
        faces. `negative` stands for the sign test on a face's winding. */
    constructor (nodeCount: nat, faces: seq<Face>, negative: Face -> bool)
      requires FacesInRange(faces, nodeCount)
      ensures Valid()
      ensures this.nodeCount == nodeCount
      ensures this.faces == Oriented(faces, negative)
      ensures edges == EdgeList(faces)
      ensures forall k :: 0 <= k < |edges| ==> Canonical(edges[k])
      ensures Distinct(edges)
    {
      this.nodeCount := nodeCount;
      this.faces := faces;
      edges := [];
      adjacentFacesForEdges := [];
      adjacentFacesForNodes := [];
      new;
      BuildEdges();
      BuildNodeAdjacency();
      MakeFacesOriented(negative);
      OrientedKeepsEdgeList(faces, negative);
      EdgeListCanonical(faces);
      EdgeListDistinct(faces);
    }

    /** The edge loop: the edges of faces 0, 1, ... are recorded in turn. */
    method BuildEdges()
      requires edges == [] && adjacentFacesForEdges == []
      modifies this`edges, this`adjacentFacesForEdges
      ensures edges == EdgeList(faces)
      ensures EdgeAdjacency(faces, edges, adjacentFacesForEdges)
    {
      var f := 0;
      assert faces[..0] == [];
      while f < |faces|
        invariant 0 <= f <= |faces|
        invariant edges == EdgeList(faces[..f])
        invariant EdgeAdjacency(faces[..f], edges, adjacentFacesForEdges)
      {
        RecordFaceEdges(f);
        f := f + 1;
      }
      assert faces[..f] == faces;
    }

    /** One pass of the edge loop for face f: each of its canonical edges,
        in ascending order, is recorded. */
    method RecordFaceEdges(f: nat)
      requires f < |faces|
      requires edges == EdgeList(faces[..f])
      requires EdgeAdjacency(faces[..f], edges, adjacentFacesForEdges)
      modifies this`edges, this`adjacentFacesForEdges
      ensures edges == EdgeList(faces[..f + 1])
      ensures EdgeAdjacency(faces[..f + 1], edges, adjacentFacesForEdges)
    {
      var perFace := FaceEdges(faces[f]);
      ghost var before := edges;
      ghost var done := faces[..f];
      assert perFace[..0] == [];
      PartialAdjacencyStart(done, edges, adjacentFacesForEdges);
      var j := 0;
      while j < |perFace|
        invariant 0 <= j <= |perFace|
        invariant edges == Scan(before, perFace[..j])
        invariant PartialAdjacency(done, perFace[..j], edges, adjacentFacesForEdges)
      {
        RecordEdge(f, perFace[j], done, before, perFace[..j]);
        TakeSnoc(perFace, j);
        j := j + 1;
      }
      assert perFace[..|perFace|] == perFace;
      EdgeListSnoc(faces, f);
      FaceAdjacencyDone(faces, f, edges, adjacentFacesForEdges);
    }

    /** The body of the edge loop for one edge of face f: std::find
        locates it; if found, f is inserted into the adjacency entry at that
        index, otherwise the edge is appended together with the set {f}.
        `done` are the faces before f and `seen` the edges of face f
        already recorded. */
    method RecordEdge(f: nat, edge: Edge, ghost done: seq<Face>, ghost before: seq<Edge>, ghost seen: seq<Edge>)
      requires f == |done|
      requires before == EdgeList(done)
      requires edges == Scan(before, seen)
      requires PartialAdjacency(done, seen, edges, adjacentFacesForEdges)
      modifies this`edges, this`adjacentFacesForEdges
      ensures edges == Scan(before, seen + [edge])
      ensures PartialAdjacency(done, seen + [edge], edges, adjacentFacesForEdges)
    {
      var idx := Find(edges, edge);
      EdgeListDistinct(done);
      if idx < |edges| {
        RecordKnownEdge(done, before, seen, edge, edges, adjacentFacesForEdges, idx);
        adjacentFacesForEdges := adjacentFacesForEdges[idx := adjacentFacesForEdges[idx] + {f}];
      } else {
        RecordNewEdge(done, before, seen, edge, edges, adjacentFacesForEdges);
        edges := edges + [edge];
        adjacentFacesForEdges := adjacentFacesForEdges + [{f}];
      }
    }

    /** The node loop: the node adjacency is resized to one empty set per
        node, then every face is added to the entry of each of its nodes. */
    method BuildNodeAdjacency()
      requires FacesInRange(faces, nodeCount)
      requires adjacentFacesForNodes == []
      modifies this`adjacentFacesForNodes
      ensures |adjacentFacesForNodes| == nodeCount
      ensures forall v :: 0 <= v < nodeCount ==> adjacentFacesForNodes[v] == FacesOfNode(faces, v)
    {
      adjacentFacesForNodes := seq(nodeCount, _ => {});
      var f := 0;
      assert faces[..0] == [];
      while f < |faces|
        invariant 0 <= f <= |faces|
        invariant |adjacentFacesForNodes| == nodeCount
        invariant forall v :: 0 <= v < nodeCount ==> adjacentFacesForNodes[v] == FacesOfNode(faces[..f], v)
      {
        var nodes := faces[f].Nodes();
        var j := 0;
        while j < 3
          invariant 0 <= j <= 3
          invariant |adjacentFacesForNodes| == nodeCount
          invariant forall v :: 0 <= v < nodeCount ==>
            adjacentFacesForNodes[v] ==
              FacesOfNode(faces[..f], v) + (if v in nodes[..j] then {f} else {})
        {
          var vertex := nodes[j];
          TakeSnoc(nodes, j);
          adjacentFacesForNodes := adjacentFacesForNodes[vertex := adjacentFacesForNodes[vertex] + {f}];
          j := j + 1;
        }
        assert nodes[..3] == nodes;
        assert faces[..f + 1] == faces[..f] + [faces[f]];
        forall v | 0 <= v < nodeCount
          ensures adjacentFacesForNodes[v] == FacesOfNode(faces[..f + 1], v)
        {
          FacesOfNodeSnoc(faces[..f], faces[f], v);
        }
        f := f + 1;
      }
      assert faces[..f] == faces;
    }

    /** The orientation pass: every face the sign test flags is rewritten
        as {n_1, n_3, n_2}; the topology stays valid. */
    method MakeFacesOriented(negative: Face -> bool)
      requires Valid()
      modifies this`faces
      ensures Valid()
      ensures faces == Oriented(old(faces), negative)
    {
      var f := 0;
      while f < |faces|
        invariant 0 <= f <= |faces| == |old(faces)|
        invariant forall g :: 0 <= g < f ==> faces[g] == Orient(old(faces)[g], negative)
        invariant forall g :: f <= g < |faces| ==> faces[g] == old(faces)[g]
      {
        var face := faces[f];
        if negative(face) {
          faces := faces[f := Face(face.n0, face.n2, face.n1)];
        }
        f := f + 1;
      }
      assert faces == Oriented(old(faces), negative);
      OrientedKeepsTopology(old(faces), negative, nodeCount, edges, adjacentFacesForEdges, adjacentFacesForNodes);
    }
  }
}
