/** Mesh topology as values: faces, canonical edges, the order in which the
    constructor of CellMesh discovers edges, and the face sets adjacent to each
    edge and each node. The class in cell_mesh.dfy is proved against these. */
module MeshTopology {

  /** A triangle: three node indices; their order is the winding. */
  datatype Face = Face(n0: int, n1: int, n2: int)
  {
    /** The node indices in storage order, as a range-for over the face visits them. */
    function Nodes(): (r: seq<int>)
      ensures multiset(r) == NodeMultiset(this)
      ensures forall v :: v in r <==> v in Vertices(this)
    {
      [n0, n1, n2]
    }
  }

  /** An undirected edge stored as a pair of node indices. */
  datatype Edge = Edge(lo: int, hi: int)

  predicate Canonical(e: Edge) { e.lo <= e.hi }

  /** The pair (min(a, b), max(a, b)). */
  function Canon(a: int, b: int): (e: Edge)
    ensures Canonical(e)
    ensures (e.lo == a && e.hi == b) || (e.lo == b && e.hi == a)
  {
    Edge(if a <= b then a else b, if a <= b then b else a)
  }

  /** The three canonical edges of a face, as a set. */
  function FaceEdgeSet(f: Face): (r: set<Edge>)
    ensures forall e :: e in r ==> Canonical(e) && e.lo in Vertices(f) && e.hi in Vertices(f)
  {
    {Canon(f.n0, f.n1), Canon(f.n1, f.n2), Canon(f.n0, f.n2)}
  }

  /** The node indices of a face, with multiplicity. */
  function NodeMultiset(f: Face): multiset<int>
  {
    multiset{f.n0, f.n1, f.n2}
  }

  /** The set of node indices a face references. */
  function Vertices(f: Face): set<int>
  {
    {f.n0, f.n1, f.n2}
  }

  /** Lexicographic order on pairs, the order of a set of pairs. */
  predicate EdgeLess(a: Edge, b: Edge)
  {
    a.lo < b.lo || (a.lo == b.lo && a.hi < b.hi)
  }

  predicate StrictlySorted(s: seq<Edge>)
  {
    forall i, j :: 0 <= i < j < |s| ==> EdgeLess(s[i], s[j])
  }

  predicate Distinct(s: seq<Edge>)
  {
    forall i, j :: 0 <= i < j < |s| ==> s[i] != s[j]
  }

  /** Inserting into an ordered set of pairs kept as a strictly sorted sequence. */
  function InsertSorted(e: Edge, s: seq<Edge>): (r: seq<Edge>)
    requires StrictlySorted(s)
    ensures StrictlySorted(r)
    ensures forall x :: x in r <==> x == e || x in s
  {
    if s == [] then [e]
    else if e == s[0] then s
    else if EdgeLess(e, s[0]) then [e] + s
    else
      var t := InsertSorted(e, s[1..]);
      assert forall x :: x in s[1..] ==> EdgeLess(s[0], x);
      assert forall i :: 0 <= i < |t| ==> EdgeLess(s[0], t[i]) by {
        forall i | 0 <= i < |t| ensures EdgeLess(s[0], t[i]) {
          assert t[i] in t;
        }
      }
      [s[0]] + t
  }

  /** The edges of a face in the order the constructor visits them: the set
      {e_1, e_2, e_3} iterated in ascending pair order, duplicates merged. */
  function FaceEdges(f: Face): (r: seq<Edge>)
    ensures StrictlySorted(r)
    ensures forall e :: e in r <==> e in FaceEdgeSet(f)
  {
    InsertSorted(Canon(f.n0, f.n2), InsertSorted(Canon(f.n1, f.n2), [Canon(f.n0, f.n1)]))
  }

  /** Two strictly sorted sequences holding the same elements are equal. */
  lemma {:induction false} SortedUnique(a: seq<Edge>, b: seq<Edge>)
    requires StrictlySorted(a) && StrictlySorted(b)
    requires forall x :: x in a <==> x in b
    ensures a == b
  {
    assert a == [] <==> b == [] by {
      if a != [] { assert a[0] in b; }
      if b != [] { assert b[0] in a; }
    }
    if a != [] {
      assert a[0] in b;
      assert b[0] in a;
      assert a[0] == b[0] by {
        var i :| 0 <= i < |b| && b[i] == a[0];
        var j :| 0 <= j < |a| && a[j] == b[0];
      }
      forall x
        ensures x in a[1..] <==> x in b[1..]
      {
        if x in a[1..] {
          var i :| 1 <= i < |a| && a[i] == x;
          assert EdgeLess(a[0], x);
          assert x in b;
        }
        if x in b[1..] {
          var i :| 1 <= i < |b| && b[i] == x;
          assert EdgeLess(b[0], x);
          assert x in a;
        }
      }
      SortedUnique(a[1..], b[1..]);
      assert a == [a[0]] + a[1..];
      assert b == [b[0]] + b[1..];
    }
  }

  /** The list of known edges after looking up each of es in turn and
      appending those not found. */
  function Scan(known: seq<Edge>, es: seq<Edge>): (r: seq<Edge>)
    ensures |known| <= |r| && r[..|known|] == known
    ensures forall x :: x in r <==> x in known || x in es
    decreases |es|
  {
    if es == [] then known
    else
      var s := Scan(known, es[..|es| - 1]);
      assert es == es[..|es| - 1] + [es[|es| - 1]];
      if es[|es| - 1] in s then s else s + [es[|es| - 1]]
  }

  lemma {:induction false} ScanDistinct(known: seq<Edge>, es: seq<Edge>)
    requires Distinct(known)
    ensures Distinct(Scan(known, es))
    decreases |es|
  {
    if es != [] {
      ScanDistinct(known, es[..|es| - 1]);
    }
  }

  /** What a scan appends lies in es and not in known. */
  lemma {:induction false} ScanAppendsNew(known: seq<Edge>, es: seq<Edge>)
    ensures forall x :: x in Scan(known, es)[|known|..] ==> x in es && x !in known
    decreases |es|
  {
    if es != [] {
      var init := es[..|es| - 1];
      var last := es[|es| - 1];
      ScanAppendsNew(known, init);
      var s := Scan(known, init);
      if last !in s {
        assert (s + [last])[|known|..] == s[|known|..] + [last];
      }
    }
  }

  /** Appending an element above all others keeps a sequence strictly sorted. */
  lemma {:induction false} SortedSnoc(t: seq<Edge>, e: Edge)
    requires StrictlySorted(t)
    requires forall x :: x in t ==> EdgeLess(x, e)
    ensures StrictlySorted(t + [e])
  {
    forall i, j | 0 <= i < j < |t + [e]| ensures EdgeLess((t + [e])[i], (t + [e])[j]) {
      if j == |t| {
        assert t[i] in t;
      }
    }
  }

  /** What a scan of an ascending es appends is itself ascending. */
  lemma {:induction false} ScanAppendsInOrder(known: seq<Edge>, es: seq<Edge>)
    requires StrictlySorted(es)
    ensures StrictlySorted(Scan(known, es)[|known|..])
    decreases |es|
  {
    if es != [] {
      var init := es[..|es| - 1];
      var last := es[|es| - 1];
      ScanAppendsInOrder(known, init);
      ScanAppendsNew(known, init);
      var s := Scan(known, init);
      var t := s[|known|..];
      if last !in s {
        forall x | x in t ensures EdgeLess(x, last) {
          var i :| 0 <= i < |init| && init[i] == x;
        }
        SortedSnoc(t, last);
        assert (s + [last])[|known|..] == t + [last];
      }
    }
  }

  /** The edge list the constructor builds from the faces. */
  function EdgeList(fs: seq<Face>): seq<Edge>
  {
    if fs == [] then [] else Scan(EdgeList(fs[..|fs| - 1]), FaceEdges(fs[|fs| - 1]))
  }

  /** Processing more faces only appends: an edge keeps the index it got
      when first found, so entry k of the adjacency stays with it. */
  lemma {:induction false} EdgeListPrefix(fs: seq<Face>, n: nat)
    requires n <= |fs|
    ensures |EdgeList(fs[..n])| <= |EdgeList(fs)|
    ensures EdgeList(fs)[..|EdgeList(fs[..n])|] == EdgeList(fs[..n])
    decreases |fs|
  {
    if n < |fs| {
      var init := fs[..|fs| - 1];
      assert init[..n] == fs[..n];
      EdgeListPrefix(init, n);
      var p, q := EdgeList(fs[..n]), EdgeList(init);
      assert EdgeList(fs)[..|q|] == q;
      assert q[..|p|] == p;
      assert EdgeList(fs)[..|p|] == EdgeList(fs)[..|q|][..|p|];
    } else {
      assert fs[..n] == fs;
    }
  }

  /** Some face of fs has e among its canonical edges. */
  ghost predicate OnSomeFace(fs: seq<Face>, e: Edge)
  {
    exists g :: 0 <= g < |fs| && e in FaceEdgeSet(fs[g])
  }

  /** The faces adjacent to edge e: those having e as one of their edges. */
  ghost function FacesOfEdge(fs: seq<Face>, e: Edge): set<int>
  {
    set g | 0 <= g < |fs| && e in FaceEdgeSet(fs[g])
  }

  /** The faces adjacent to node v: those referencing v. */
  ghost function FacesOfNode(fs: seq<Face>, v: int): set<int>
  {
    set g | 0 <= g < |fs| && v in Vertices(fs[g])
  }

  /** Every node index referenced lies in [0, nodeCount). */
  predicate FacesInRange(fs: seq<Face>, nodeCount: nat)
  {
    forall g :: 0 <= g < |fs| ==>
      0 <= fs[g].n0 < nodeCount && 0 <= fs[g].n1 < nodeCount && 0 <= fs[g].n2 < nodeCount
  }

  lemma {:induction false} EdgeListCanonical(fs: seq<Face>)
    ensures forall k :: 0 <= k < |EdgeList(fs)| ==> Canonical(EdgeList(fs)[k])
  {
    if fs != [] {
      var init := fs[..|fs| - 1];
      EdgeListCanonical(init);
      var r := EdgeList(fs);
      forall k | 0 <= k < |r| ensures Canonical(r[k]) {
        assert r[k] in r;
        if r[k] !in EdgeList(init) {
          assert r[k] in FaceEdgeSet(fs[|fs| - 1]);
        }
      }
    }
  }

  lemma {:induction false} EdgeListDistinct(fs: seq<Face>)
    ensures Distinct(EdgeList(fs))
  {
    if fs != [] {
      EdgeListDistinct(fs[..|fs| - 1]);
      ScanDistinct(EdgeList(fs[..|fs| - 1]), FaceEdges(fs[|fs| - 1]));
    }
  }

  lemma {:induction false} OnSomeFaceSnoc(fs: seq<Face>, e: Edge)
    requires fs != []
    ensures OnSomeFace(fs, e) <==> OnSomeFace(fs[..|fs| - 1], e) || e in FaceEdgeSet(fs[|fs| - 1])
  {
    var init := fs[..|fs| - 1];
    if OnSomeFace(fs, e) {
      var g :| 0 <= g < |fs| && e in FaceEdgeSet(fs[g]);
      if g < |init| {
        assert init[g] == fs[g];
      }
    }
    if OnSomeFace(init, e) {
      var g :| 0 <= g < |init| && e in FaceEdgeSet(init[g]);
      assert init[g] == fs[g];
    }
  }

  /** The edge list holds exactly the union of the faces' canonical edges. */
  lemma {:induction false} EdgeListCovers(fs: seq<Face>)
    ensures forall e :: e in EdgeList(fs) <==> OnSomeFace(fs, e)
  {
    if fs != [] {
      EdgeListCovers(fs[..|fs| - 1]);
      forall e ensures e in EdgeList(fs) <==> OnSomeFace(fs, e) {
        OnSomeFaceSnoc(fs, e);
      }
    }
  }

  /** Index of the first face having edge e; |fs| when there is none. */
  ghost function FirstFace(fs: seq<Face>, e: Edge): (g: nat)
    ensures g <= |fs|
    ensures g < |fs| ==> e in FaceEdgeSet(fs[g])
    ensures forall h :: 0 <= h < g ==> e !in FaceEdgeSet(fs[h])
  {
    if fs == [] then 0
    else
      var g := FirstFace(fs[..|fs| - 1], e);
      assert forall h :: 0 <= h < |fs| - 1 ==> fs[..|fs| - 1][h] == fs[h];
      if g < |fs| - 1 then g
      else if e in FaceEdgeSet(fs[|fs| - 1]) then |fs| - 1
      else |fs|
  }

  /** Edge a is discovered before edge b: its first face comes earlier, or
      both first appear on the same face and a is the smaller pair. */
  ghost predicate Precedes(fs: seq<Face>, a: Edge, b: Edge)
  {
    FirstFace(fs, a) < FirstFace(fs, b) || (FirstFace(fs, a) == FirstFace(fs, b) && EdgeLess(a, b))
  }

  /** Edges appear in the order of the first face having them. */
  lemma {:induction false} EdgeListOrder(fs: seq<Face>)
    ensures forall i, j :: 0 <= i < j < |EdgeList(fs)| ==> Precedes(fs, EdgeList(fs)[i], EdgeList(fs)[j])
  {
    if fs != [] {
      var init := fs[..|fs| - 1];
      var last := fs[|fs| - 1];
      var prev := EdgeList(init);
      var r := EdgeList(fs);
      EdgeListOrder(init);
      EdgeListCovers(init);
      ScanAppendsNew(prev, FaceEdges(last));
      ScanAppendsInOrder(prev, FaceEdges(last));
      var t := r[|prev|..];
      forall k | 0 <= k < |r|
        ensures k < |prev| ==> FirstFace(fs, r[k]) == FirstFace(init, r[k]) < |init|
        ensures |prev| <= k ==> FirstFace(fs, r[k]) == |init|
      {
        if k < |prev| {
          assert r[k] == prev[k] && prev[k] in prev;
          var g :| 0 <= g < |init| && r[k] in FaceEdgeSet(init[g]);
        } else {
          assert r[k] == t[k - |prev|] && t[k - |prev|] in t;
        }
      }
      forall i, j | 0 <= i < j < |r| ensures Precedes(fs, r[i], r[j]) {
        if j < |prev| {
          assert r[i] == prev[i] && r[j] == prev[j];
        } else if |prev| <= i {
          assert r[i] == t[i - |prev|] && r[j] == t[j - |prev|];
        }
      }
    }
  }

  lemma {:induction false} TakeSnoc<T>(s: seq<T>, j: nat)
    requires j < |s|
    ensures s[..j + 1] == s[..j] + [s[j]]
  {
  }

  lemma {:induction false} FacesOfEdgeSnoc(fs: seq<Face>, x: Face, e: Edge)
    ensures FacesOfEdge(fs + [x], e) == FacesOfEdge(fs, e) + (if e in FaceEdges(x) then {|fs|} else {})
  {
    var a := FacesOfEdge(fs + [x], e);
    var b := FacesOfEdge(fs, e) + (if e in FaceEdgeSet(x) then {|fs|} else {});
    forall g ensures g in a <==> g in b {
      if 0 <= g < |fs| {
        assert (fs + [x])[g] == fs[g];
      }
    }
  }

  lemma {:induction false} FacesOfNodeSnoc(fs: seq<Face>, x: Face, v: int)
    ensures FacesOfNode(fs + [x], v) == FacesOfNode(fs, v) + (if v in Vertices(x) then {|fs|} else {})
  {
    var a := FacesOfNode(fs + [x], v);
    var b := FacesOfNode(fs, v) + (if v in Vertices(x) then {|fs|} else {});
    forall g ensures g in a <==> g in b {
      if 0 <= g < |fs| {
        assert (fs + [x])[g] == fs[g];
      }
    }
  }

  /** Mid-way through face f = |done|: entry k holds the earlier faces
      adjacent to edges[k], plus f once edges[k] has been seen on f. */
  ghost predicate PartialAdjacency(done: seq<Face>, seen: seq<Edge>, edges: seq<Edge>, adj: seq<set<int>>)
  {
    |adj| == |edges| &&
    forall k :: 0 <= k < |edges| ==>
      adj[k] == FacesOfEdge(done, edges[k]) + (if edges[k] in seen then {|done|} else {})
  }

  lemma {:induction false} PartialAdjacencyStart(done: seq<Face>, edges: seq<Edge>, adj: seq<set<int>>)
    requires EdgeAdjacency(done, edges, adj)
    ensures PartialAdjacency(done, [], edges, adj)
  {
  }

  /** A known edge e, found at index idx: the face f = |done| is added to
      the entry at idx and the edge list stays as it is. */
  lemma {:induction false} RecordKnownEdge(done: seq<Face>, before: seq<Edge>, seen: seq<Edge>, e: Edge,
                                           edges: seq<Edge>, adj: seq<set<int>>, idx: nat)
    requires Distinct(before)
    requires edges == Scan(before, seen) && PartialAdjacency(done, seen, edges, adj)
    requires idx < |edges| && edges[idx] == e
    ensures edges == Scan(before, seen + [e])
    ensures PartialAdjacency(done, seen + [e], edges, adj[idx := adj[idx] + {|done|}])
  {
    assert (seen + [e])[..|seen|] == seen;
    ScanDistinct(before, seen);
    var adj' := adj[idx := adj[idx] + {|done|}];
    forall k | 0 <= k < |edges|
      ensures adj'[k] == FacesOfEdge(done, edges[k]) + (if edges[k] in seen + [e] then {|done|} else {})
    {
      if k != idx {
        assert edges[k] != edges[idx];
      }
    }
  }

  /** A new edge e, missing from the list: it is appended together with the
      singleton {f}, f = |done|. */
  lemma {:induction false} RecordNewEdge(done: seq<Face>, before: seq<Edge>, seen: seq<Edge>, e: Edge,
                                         edges: seq<Edge>, adj: seq<set<int>>)
    requires before == EdgeList(done)
    requires edges == Scan(before, seen) && PartialAdjacency(done, seen, edges, adj)
    requires e !in edges
    ensures edges + [e] == Scan(before, seen + [e])
    ensures PartialAdjacency(done, seen + [e], edges + [e], adj + [{|done|}])
  {
    assert (seen + [e])[..|seen|] == seen;
    assert !OnSomeFace(done, e) by {
      EdgeListCovers(done);
    }
    var edges', adj' := edges + [e], adj + [{|done|}];
    forall k | 0 <= k < |edges'|
      ensures adj'[k] == FacesOfEdge(done, edges'[k]) + (if edges'[k] in seen + [e] then {|done|} else {})
    {
      if k == |edges| {
        assert FacesOfEdge(done, e) == {};
      } else {
        assert edges'[k] == edges[k];
      }
    }
  }

  /** The edge list of faces 0..f is that of faces 0..f-1 scanned with
      the edges of face f. */
  lemma {:induction false} EdgeListSnoc(fs: seq<Face>, f: nat)
    requires f < |fs|
    ensures EdgeList(fs[..f + 1]) == Scan(EdgeList(fs[..f]), FaceEdges(fs[f]))
  {
    assert fs[..f + 1][..f] == fs[..f];
  }

  /** Once every edge of face x has been seen, entry k is the set of faces
      among done + [x] having edges[k]. */
  lemma {:induction false} PartialAdjacencyFinish(done: seq<Face>, x: Face, edges: seq<Edge>, adj: seq<set<int>>)
    requires PartialAdjacency(done, FaceEdges(x), edges, adj)
    ensures EdgeAdjacency(done + [x], edges, adj)
  {
    forall k | 0 <= k < |edges| ensures adj[k] == FacesOfEdge(done + [x], edges[k]) {
      FacesOfEdgeSnoc(done, x, edges[k]);
    }
  }

  /** The same, for face f of fs: the adjacency is that of faces 0..f. */
  lemma {:induction false} FaceAdjacencyDone(fs: seq<Face>, f: nat, edges: seq<Edge>, adj: seq<set<int>>)
    requires f < |fs|
    requires PartialAdjacency(fs[..f], FaceEdges(fs[f]), edges, adj)
    ensures EdgeAdjacency(fs[..f + 1], edges, adj)
  {
    PartialAdjacencyFinish(fs[..f], fs[f], edges, adj);
    assert fs[..f + 1] == fs[..f] + [fs[f]];
  }

  // ---------------------------------------------------------------------
  // Orientation fix-up

  /** The face with its second and third indices exchanged: {n_1, n_3, n_2}. */
  function Swap23(f: Face): Face
  {
    Face(f.n0, f.n2, f.n1)
  }

  /** Swapping the second and third indices keeps the first index, the
      vertex multiset and the vertex set. */
  lemma {:induction false} SwapKeepsNodes(f: Face)
    ensures Swap23(f).n0 == f.n0
    ensures NodeMultiset(Swap23(f)) == NodeMultiset(f)
    ensures Vertices(Swap23(f)) == Vertices(f)
  {
  }

  /** Swapping the second and third indices keeps the set of canonical edges:
      {n_2, n_3} is the same undirected edge as {n_3, n_2}. */
  lemma {:induction false} SwapKeepsEdges(f: Face)
    ensures FaceEdgeSet(Swap23(f)) == FaceEdgeSet(f)
  {
    assert Canon(f.n2, f.n1) == Canon(f.n1, f.n2);
  }

  /** One step of the fix-up: a face the sign test flags as inward is reversed.
      `negative` stands for the sign test on the face's current winding. */
  function Orient(f: Face, negative: Face -> bool): Face
  {
    if negative(f) then Swap23(f) else f
  }

  ghost function Oriented(fs: seq<Face>, negative: Face -> bool): (r: seq<Face>)
    ensures |r| == |fs|
  {
    seq(|fs|, i requires 0 <= i < |fs| => Orient(fs[i], negative))
  }

  /** A re-oriented face keeps its first index, its vertex multiset and its
      canonical edges, and visits its edges in the same order. */
  lemma {:induction false} OrientKeepsFace(f: Face, negative: Face -> bool)
    ensures Orient(f, negative) == f || Orient(f, negative) == Face(f.n0, f.n2, f.n1)
    ensures Orient(f, negative).n0 == f.n0
    ensures NodeMultiset(Orient(f, negative)) == NodeMultiset(f)
    ensures FaceEdges(Orient(f, negative)) == FaceEdges(f)
  {
    var g := Orient(f, negative);
    SwapKeepsNodes(f);
    SwapKeepsEdges(f);
    SortedUnique(FaceEdges(g), FaceEdges(f));
  }

  /** Re-orienting the faces leaves the whole topology as it was: the edge
      list, every edge's adjacent faces and every node's adjacent faces. */
  lemma {:induction false} OrientedKeepsEdgeList(fs: seq<Face>, negative: Face -> bool)
    ensures EdgeList(Oriented(fs, negative)) == EdgeList(fs)
  {
    if fs != [] {
      var o := Oriented(fs, negative);
      var init := fs[..|fs| - 1];
      assert o[..|o| - 1] == Oriented(init, negative);
      OrientedKeepsEdgeList(init, negative);
      OrientKeepsFace(fs[|fs| - 1], negative);
    }
  }

  lemma {:induction false} OrientedKeepsAdjacency(fs: seq<Face>, negative: Face -> bool, nodeCount: nat)
    ensures forall e :: FacesOfEdge(Oriented(fs, negative), e) == FacesOfEdge(fs, e)
    ensures forall v :: FacesOfNode(Oriented(fs, negative), v) == FacesOfNode(fs, v)
    ensures FacesInRange(fs, nodeCount) ==> FacesInRange(Oriented(fs, negative), nodeCount)
  {
    var o := Oriented(fs, negative);
    assert forall e :: FacesOfEdge(o, e) == FacesOfEdge(fs, e) by {
      forall g | 0 <= g < |fs| ensures FaceEdgeSet(o[g]) == FaceEdgeSet(fs[g]) {
        SwapKeepsEdges(fs[g]);
      }
    }
    assert forall v :: FacesOfNode(o, v) == FacesOfNode(fs, v) by {
      forall g | 0 <= g < |fs| ensures Vertices(o[g]) == Vertices(fs[g]) {
        SwapKeepsNodes(fs[g]);
      }
    }
  }

  // ---------------------------------------------------------------------
  // The topology as a whole

  /** Entry k of adj is the set of faces adjacent to edges[k]. */
  ghost predicate EdgeAdjacency(fs: seq<Face>, edges: seq<Edge>, adj: seq<set<int>>)
  {
    |adj| == |edges| && forall k :: 0 <= k < |edges| ==> adj[k] == FacesOfEdge(fs, edges[k])
  }

  /** One entry per node, entry v the set of faces referencing v. */
  ghost predicate NodeAdjacency(fs: seq<Face>, nodeCount: nat, adj: seq<set<int>>)
  {
    |adj| == nodeCount && forall v :: 0 <= v < nodeCount ==> adj[v] == FacesOfNode(fs, v)
  }

  /** The edge list and both adjacencies are the ones the faces determine. */
  ghost predicate Topology(fs: seq<Face>, nodeCount: nat, edges: seq<Edge>,
                           edgeFaces: seq<set<int>>, nodeFaces: seq<set<int>>)
  {
    && FacesInRange(fs, nodeCount)
    && edges == EdgeList(fs)
    && EdgeAdjacency(fs, edges, edgeFaces)
    && NodeAdjacency(fs, nodeCount, nodeFaces)
  }

  /** Orientation runs after the adjacency is built; the adjacency built
      from the original faces is still that of the re-oriented faces. */
  lemma {:induction false} OrientedKeepsTopology(fs: seq<Face>, negative: Face -> bool, nodeCount: nat, edges: seq<Edge>,
                              edgeFaces: seq<set<int>>, nodeFaces: seq<set<int>>)
    requires Topology(fs, nodeCount, edges, edgeFaces, nodeFaces)
    ensures Topology(Oriented(fs, negative), nodeCount, edges, edgeFaces, nodeFaces)
  {
    OrientedKeepsEdgeList(fs, negative);
    OrientedKeepsAdjacency(fs, negative, nodeCount);
  }
}
