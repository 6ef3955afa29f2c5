// The cube mesh: eight corner vertices and six faces, each face an ordered loop
// of four vertex indices whose edges join consecutive indices, wrapping around.

module Mesh {
  import opened Geometry

  /** The corners of the cube centred at the origin, in index order. */
  const Vertices: seq<Point3D> := [
    Point3D(-1.0, -1.0, -1.0),
    Point3D(-1.0, -1.0, 1.0),
    Point3D(-1.0, 1.0, -1.0),
    Point3D(-1.0, 1.0, 1.0),
    Point3D(1.0, -1.0, -1.0),
    Point3D(1.0, -1.0, 1.0),
    Point3D(1.0, 1.0, -1.0),
    Point3D(1.0, 1.0, 1.0)
  ]

  /** Each face as a loop of four vertex indices. */
  const Faces: seq<seq<int>> := [
    [0, 1, 3, 2],
    [4, 6, 7, 5],
    [0, 2, 6, 4],
    [1, 5, 7, 3],
    [0, 4, 5, 1],
    [2, 3, 7, 6]
  ]

  predicate ValidFace(face: seq<int>)
  {
    |face| == 4 && forall k :: 0 <= k < 4 ==> 0 <= face[k] < |Vertices|
  }

  /** The `k`-th edge of a face: from index `k` to the next one, the last wrapping to the first. */
  function Edge(face: seq<int>, k: int): (e: (int, int))
    requires ValidFace(face) && 0 <= k < 4
    ensures 0 <= e.0 < |Vertices| && 0 <= e.1 < |Vertices|
    ensures e.0 == face[k] && (k < 3 ==> e.1 == face[k + 1]) && (k == 3 ==> e.1 == face[0])
  {
    (face[k], face[(k + 1) % 4])
  }

  function Coord(p: Point3D, axis: int): real
    requires 0 <= axis < 3
  {
    if axis == 0 then p.x else if axis == 1 then p.y else p.z
  }

  predicate IsCorner(p: Point3D)
  {
    (p.x == 1.0 || p.x == -1.0) && (p.y == 1.0 || p.y == -1.0) && (p.z == 1.0 || p.z == -1.0)
  }

  /** The number of coordinates in which two points differ. */
  function Differences(p: Point3D, q: Point3D): int
  {
    (if p.x != q.x then 1 else 0) + (if p.y != q.y then 1 else 0) + (if p.z != q.z then 1 else 0)
  }

  /** Two corners are joined by an edge of the cube when they differ in exactly one coordinate. */
  predicate CubeEdge(p: Point3D, q: Point3D)
  {
    Differences(p, q) == 1
  }

  /** All four vertices of the face share the coordinate on `axis`. */
  predicate OnPlane(face: seq<int>, axis: int)
    requires ValidFace(face) && 0 <= axis < 3
  {
    forall k :: 0 <= k < 4 ==> Coord(Vertices[face[k]], axis) == Coord(Vertices[face[0]], axis)
  }

  /**
    * A face of the cube: four distinct corners on one plane x, y or z = +-1, each edge
    * of the loop an edge of the cube (so the loop runs round the square, never across it).
    */
  predicate IsCubeFace(face: seq<int>)
    requires ValidFace(face)
  {
    && (OnPlane(face, 0) || OnPlane(face, 1) || OnPlane(face, 2))
    && (forall k, m :: 0 <= k < m < 4 ==> face[k] != face[m])
    && (forall k :: 0 <= k < 4 ==> CubeEdge(Vertices[Edge(face, k).0], Vertices[Edge(face, k).1]))
  }

  /** The eight vertices are distinct corners of the cube, each at squared distance 3 from the origin. */
  lemma VerticesAreCorners()
    ensures |Vertices| == 8
    ensures forall v :: 0 <= v < |Vertices| ==> IsCorner(Vertices[v]) && NormSquared(Vertices[v]) == 3.0
    ensures forall v, u :: 0 <= v < u < |Vertices| ==> Vertices[v] != Vertices[u]
  {
  }

  /** There are six faces and every index in them is a valid vertex index. */
  lemma FacesAreValid()
    ensures |Faces| == 6
    ensures forall f :: 0 <= f < |Faces| ==> ValidFace(Faces[f])
  {
  }

  /** The axis whose coordinate the `f`-th face keeps fixed. */
  function FaceAxis(f: int): int
  {
    if f < 2 then 0 else if f < 4 then 2 else 1
  }

  /** The `f`-th face lies on the plane where the coordinate on FaceAxis(f) is fixed. */
  lemma FaceOnPlane(f: int)
    requires 0 <= f < |Faces|
    ensures ValidFace(Faces[f]) && OnPlane(Faces[f], FaceAxis(f))
  {
  }

  /** The four corners of each face are distinct. */
  lemma FaceCornersDistinct(f: int)
    requires 0 <= f < |Faces|
    ensures forall k, m :: 0 <= k < m < 4 ==> Faces[f][k] != Faces[f][m]
  {
  }

  /** Each edge of each face loop is an edge of the cube. */
  lemma FaceEdgesOnCube(f: int)
    requires 0 <= f < |Faces|
    ensures ValidFace(Faces[f])
    ensures forall k :: 0 <= k < 4 ==> CubeEdge(Vertices[Edge(Faces[f], k).0], Vertices[Edge(Faces[f], k).1])
  {
    var face := Faces[f];
    assert ValidFace(face);
    forall k | 0 <= k < 4
      ensures CubeEdge(Vertices[Edge(face, k).0], Vertices[Edge(face, k).1])
    {
    }
  }

  /** The `f`-th face is a face of the cube, on the plane of FaceAxis(f). */
  lemma FaceIsCubeFace(f: int)
    requires 0 <= f < |Faces|
    ensures ValidFace(Faces[f]) && OnPlane(Faces[f], FaceAxis(f)) && IsCubeFace(Faces[f])
  {
    FaceOnPlane(f);
    FaceCornersDistinct(f);
    FaceEdgesOnCube(f);
  }

  /** Every face of the table is a face of the cube. */
  lemma FacesAreCubeFaces()
    ensures forall f :: 0 <= f < |Faces| ==> ValidFace(Faces[f]) && IsCubeFace(Faces[f])
  {
    forall f | 0 <= f < |Faces|
      ensures ValidFace(Faces[f]) && IsCubeFace(Faces[f])
    {
      FaceIsCubeFace(f);
    }
  }

  /** 1 when the edge joins `a` and `b`, in either direction, else 0. */
  function Joins(e: (int, int), a: int, b: int): nat
  {
    if (e.0 == a && e.1 == b) || (e.0 == b && e.1 == a) then 1 else 0
  }

  /** The number of the four edges of `face` that join `a` and `b`. */
  function EdgesJoiningIn(face: seq<int>, a: int, b: int): nat
    requires ValidFace(face)
  {
    Joins(Edge(face, 0), a, b) + Joins(Edge(face, 1), a, b) + Joins(Edge(face, 2), a, b) + Joins(Edge(face, 3), a, b)
  }

  /** The number of edges of the first `f` faces that join `a` and `b`: how often a frame draws that segment. */
  function EdgesJoining(f: int, a: int, b: int): nat
    requires 0 <= f <= |Faces|
  {
    if f == 0 then 0
    else
      FacesAreValid();
      EdgesJoining(f - 1, a, b) + EdgesJoiningIn(Faces[f - 1], a, b)
  }

  /** A sign from one binary digit: 1 for a set bit, -1 for a clear one. */
  function Sign(bit: int): real
  {
    if bit == 1 then 1.0 else -1.0
  }

  /** Vertex `v` has the binary digits of `v` as its (x, y, z) signs. */
  lemma VertexBits(v: int)
    requires 0 <= v < |Vertices|
    ensures Vertices[v] == Point3D(Sign(v / 4), Sign(v / 2 % 2), Sign(v % 2))
  {
    if v == 0 {} else if v == 1 {} else if v == 2 {} else if v == 3 {}
    else if v == 4 {} else if v == 5 {} else if v == 6 {} else {}
  }

  /** The number of binary digits in which two vertex indices differ. */
  function BitDifferences(a: int, b: int): int
  {
    (if a / 4 != b / 4 then 1 else 0) + (if a / 2 % 2 != b / 2 % 2 then 1 else 0) + (if a % 2 != b % 2 then 1 else 0)
  }

  /** Two vertices are joined by a cube edge exactly when their indices differ in one binary digit. */
  lemma CubeEdgeBits(a: int, b: int)
    requires 0 <= a < |Vertices| && 0 <= b < |Vertices|
    ensures CubeEdge(Vertices[a], Vertices[b]) <==> BitDifferences(a, b) == 1
  {
    VertexBits(a);
    VertexBits(b);
  }

  // The edges written out in the next three lemmas are those of Faces[0], Faces[1] (x),
  // Faces[2], Faces[3] (z) and Faces[4], Faces[5] (y), in loop order.

  /** The two faces normal to the x axis draw once each edge between indices that agree in the first binary digit and differ in one other. */
  lemma OppositeFacesX(a: int, b: int)
    requires 0 <= a < 8 && 0 <= b < 8
    ensures Joins((0, 1), a, b) + Joins((1, 3), a, b) + Joins((3, 2), a, b) + Joins((2, 0), a, b)
          + Joins((4, 6), a, b) + Joins((6, 7), a, b) + Joins((7, 5), a, b) + Joins((5, 4), a, b)
         == if a / 4 == b / 4 && BitDifferences(a, b) == 1 then 1 else 0
  {
  }

  /** The two faces normal to the z axis draw once each edge between indices that agree in the last binary digit and differ in one other. */
  lemma OppositeFacesZ(a: int, b: int)
    requires 0 <= a < 8 && 0 <= b < 8
    ensures Joins((0, 2), a, b) + Joins((2, 6), a, b) + Joins((6, 4), a, b) + Joins((4, 0), a, b)
          + Joins((1, 5), a, b) + Joins((5, 7), a, b) + Joins((7, 3), a, b) + Joins((3, 1), a, b)
         == if a % 2 == b % 2 && BitDifferences(a, b) == 1 then 1 else 0
  {
  }

  /** The two faces normal to the y axis draw once each edge between indices that agree in the middle binary digit and differ in one other. */
  lemma OppositeFacesY(a: int, b: int)
    requires 0 <= a < 8 && 0 <= b < 8
    ensures Joins((0, 4), a, b) + Joins((4, 5), a, b) + Joins((5, 1), a, b) + Joins((1, 0), a, b)
          + Joins((2, 3), a, b) + Joins((3, 7), a, b) + Joins((7, 6), a, b) + Joins((6, 2), a, b)
         == if a / 2 % 2 == b / 2 % 2 && BitDifferences(a, b) == 1 then 1 else 0
  {
  }

  /** The twenty-four face edges of the table, written out: 2 of them join indices differing in one binary digit, else none. */
  lemma ListedEdgesBits(a: int, b: int)
    requires 0 <= a < 8 && 0 <= b < 8
    ensures
      Joins((0, 1), a, b) + Joins((1, 3), a, b) + Joins((3, 2), a, b) + Joins((2, 0), a, b)
      + Joins((4, 6), a, b) + Joins((6, 7), a, b) + Joins((7, 5), a, b) + Joins((5, 4), a, b)
      + Joins((0, 2), a, b) + Joins((2, 6), a, b) + Joins((6, 4), a, b) + Joins((4, 0), a, b)
      + Joins((1, 5), a, b) + Joins((5, 7), a, b) + Joins((7, 3), a, b) + Joins((3, 1), a, b)
      + Joins((0, 4), a, b) + Joins((4, 5), a, b) + Joins((5, 1), a, b) + Joins((1, 0), a, b)
      + Joins((2, 3), a, b) + Joins((3, 7), a, b) + Joins((7, 6), a, b) + Joins((6, 2), a, b)
      == if BitDifferences(a, b) == 1 then 2 else 0
  {
    OppositeFacesX(a, b);
    OppositeFacesZ(a, b);
    OppositeFacesY(a, b);
  }

  /** The edges joining `a` and `b` number 2 when their indices differ in one binary digit, else 0. */
  lemma EdgesJoiningBits(a: int, b: int)
    requires 0 <= a < 8 && 0 <= b < 8
    ensures EdgesJoining(|Faces|, a, b) == if BitDifferences(a, b) == 1 then 2 else 0
  {
    FacesAreValid();
    assert EdgesJoining(1, a, b) == EdgesJoining(0, a, b) + EdgesJoiningIn(Faces[0], a, b);
    assert EdgesJoining(2, a, b) == EdgesJoining(1, a, b) + EdgesJoiningIn(Faces[1], a, b);
    assert EdgesJoining(3, a, b) == EdgesJoining(2, a, b) + EdgesJoiningIn(Faces[2], a, b);
    assert EdgesJoining(4, a, b) == EdgesJoining(3, a, b) + EdgesJoiningIn(Faces[3], a, b);
    assert EdgesJoining(5, a, b) == EdgesJoining(4, a, b) + EdgesJoiningIn(Faces[4], a, b);
    assert EdgesJoining(6, a, b) == EdgesJoining(5, a, b) + EdgesJoiningIn(Faces[5], a, b);
    ListedEdgesBits(a, b);
  }

  /**
    * The face loops draw exactly the edges of the cube, each of its twelve edges twice
    * (once for each of the two faces that share it) and no other pair of vertices.
    */
  lemma EveryCubeEdgeDrawnTwice(a: int, b: int)
    requires 0 <= a < |Vertices| && 0 <= b < |Vertices|
    ensures EdgesJoining(|Faces|, a, b) == if CubeEdge(Vertices[a], Vertices[b]) then 2 else 0
  {
    EdgesJoiningBits(a, b);
    CubeEdgeBits(a, b);
  }
}
