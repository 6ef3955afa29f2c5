// One iteration of the animation loop: build the rotation for the current angle,
// project the four corners of each face onto the x-z plane, and rasterize the
// face's four edges. The output of a frame is the sequence of in-bounds cells
// written, in drawing order; the screen is cleared before it.

module Frame {
  import opened Geometry
  import opened Mesh
  import opened Raster

  /** The offset added to every projected coordinate before drawing. */
  const Size: int := 16

  /** The factor applied to the rotated x and z coordinates. */
  const Scale: real := 5.0

  /** The conversion of a coordinate to a whole number: truncation toward zero. */
  function Truncate(r: real): (t: int)
    ensures 0.0 <= r ==> t as real <= r < t as real + 1.0
    ensures r < 0.0 ==> t as real - 1.0 < r <= t as real
  {
    if 0.0 <= r then r.Floor else -((-r).Floor)
  }

  /** The screen cell of a projected point. */
  function GridCell(p: Point2D): Cell
  {
    Cell(Truncate(p.x) + Size, Truncate(p.y) + Size)
  }

  /** A vertex rotated by the affine `m` and dropped onto the x-z plane, scaled. */
  function ProjectVertex(v: Point3D, m: Matrix4D): (p: Point2D)
    requires IsAffine(m)
    ensures p.x == Numerators(v, m).x * Scale && p.y == Numerators(v, m).z * Scale
  {
    var r := Transform(v, m).value;
    Point2D(r.x * Scale, r.z * Scale)
  }

  /** The projections of the four corners of `face`, in the face's order. */
  function ProjectedFace(face: seq<int>, m: Matrix4D): (ps: seq<Point2D>)
    requires ValidFace(face) && IsAffine(m)
    ensures |ps| == 4
  {
    seq(4, k requires 0 <= k < 4 => ProjectVertex(Vertices[face[k]], m))
  }

  /** Fills a fresh four-element buffer with the projected corners of `face`. */
  method ProjectFace(face: seq<int>, m: Matrix4D) returns (projected: array<Point2D>)
    requires ValidFace(face) && IsAffine(m)
    ensures fresh(projected) && projected.Length == 4
    ensures projected[..] == ProjectedFace(face, m)
  {
    projected := new Point2D[4](_ => Point2D(0.0, 0.0));
    for i := 0 to 4
      invariant forall k :: 0 <= k < i ==> projected[k] == ProjectVertex(Vertices[face[k]], m)
    {
      var vertex := Vertices[face[i]];
      var rotated := Transform(vertex, m).value;
      projected[i] := Point2D(rotated.x * Scale, rotated.z * Scale);
    }
  }

  /** The cells written for the `i`-th edge of a projected face, from corner i to the next one. */
  function EdgeCells(ps: seq<Point2D>, i: int, width: int, height: int): seq<Cell>
    requires |ps| == 4 && 0 <= i < 4
  {
    var a, b := GridCell(ps[i]), GridCell(ps[(i + 1) % 4]);
    Clip(LineCells(a.x, a.y, b.x, b.y), width, height)
  }

  /** The `i`-th edge drawn for a face runs between the projections of the two mesh vertices `Edge(face, i)` joins. */
  lemma EdgeCellsFollowEdge(face: seq<int>, m: Matrix4D, i: int, width: int, height: int)
    requires ValidFace(face) && IsAffine(m) && 0 <= i < 4
    ensures var a, b := GridCell(ProjectVertex(Vertices[Edge(face, i).0], m)), GridCell(ProjectVertex(Vertices[Edge(face, i).1], m));
            EdgeCells(ProjectedFace(face, m), i, width, height) == Clip(LineCells(a.x, a.y, b.x, b.y), width, height)
  {
  }

  /** The cells written for the first `k` edges of a projected face. */
  function FaceCells(ps: seq<Point2D>, k: int, width: int, height: int): seq<Cell>
    requires |ps| == 4 && 0 <= k <= 4
  {
    if k == 0 then [] else FaceCells(ps, k - 1, width, height) + EdgeCells(ps, k - 1, width, height)
  }

  /** Draws the four edges of a projected face, returning the cells written in order. */
  method DrawFace(projected: array<Point2D>, width: int, height: int) returns (written: seq<Cell>)
    requires projected.Length == 4
    ensures written == FaceCells(projected[..], 4, width, height)
  {
    written := [];
    for i := 0 to 4
      invariant written == FaceCells(projected[..], i, width, height)
    {
      var v1, v2 := projected[i], projected[(i + 1) % 4];
      var a, b := GridCell(v1), GridCell(v2);
      var _, cells := DrawLine(a.x, a.y, b.x, b.y, width, height);
      written := written + cells;
    }
  }

  /** The rotation of a frame: about X, then about Y, by the same angle. */
  function FrameRotation(c: real, s: real): (m: Matrix4D)
    ensures IsAffine(m)
  {
    Mul(RotationX(c, s), RotationY(c, s))
  }

  /** The cells written for the first `f` faces of the mesh under the rotation `m`. */
  function FacesCells(m: Matrix4D, f: int, width: int, height: int): seq<Cell>
    requires IsAffine(m) && 0 <= f <= |Faces|
  {
    if f == 0 then []
    else
      FacesAreValid();
      FacesCells(m, f - 1, width, height) + FaceCells(ProjectedFace(Faces[f - 1], m), 4, width, height)
  }

  /** All the cells a frame writes, in order. */
  function FrameCells(c: real, s: real, width: int, height: int): seq<Cell>
  {
    FacesCells(FrameRotation(c, s), |Faces|, width, height)
  }

  /** The square of the screen a unit-circle frame stays in. */
  predicate InFrameSquare(cell: Cell)
  {
    Size - 8 <= cell.x <= Size + 8 && Size - 8 <= cell.y <= Size + 8
  }

  /** The console column a cell is written at: shifted right by half the width less an eighth. */
  function CursorLeft(cell: Cell, width: int): int
  {
    cell.x + width / 2 - width / 8
  }

  /** The console row a cell is written at: shifted down by half the height less an eighth. */
  function CursorTop(cell: Cell, height: int): int
  {
    cell.y + height / 2 - height / 8
  }

  /**
    * On a console at least 40 by 40, with the buffer as large as the window, a cell
    * of the frame square is written at a cursor position inside the buffer.
    */
  lemma CursorInBuffer(cell: Cell, width: int, height: int)
    requires InFrameSquare(cell) && width >= 40 && height >= 40
    ensures 0 <= CursorLeft(cell, width) < width && 0 <= CursorTop(cell, height) < height
  {
  }

  /** On a smaller console an on-screen cell can be written outside the buffer: (9, 0) on a 10 by 10 console goes to column 13. */
  lemma CursorCanLeaveBuffer()
    ensures InBounds(Cell(9, 0), 10, 10) && CursorLeft(Cell(9, 0), 10) == 13
  {
  }

  /** A coordinate whose square is at most 3, scaled by 5, lies strictly between -9 and 9. */
  lemma ScaledBound(x: real)
    requires x * x <= 3.0
    ensures -9.0 < x * Scale < 9.0
  {
  }

  /** Truncation keeps a value strictly between -9 and 9 within [-8, 8]. */
  lemma TruncateBound(r: real)
    requires -9.0 < r < 9.0
    ensures -8 <= Truncate(r) <= 8
  {
  }

  /** A point at squared distance 3 from the origin has its x and z coordinates within the frame square once scaled and truncated. */
  lemma FrameSquareBound(x: real, y: real, z: real)
    requires x * x + y * y + z * z == 3.0
    ensures -8 <= Truncate(x * Scale) <= 8 && -8 <= Truncate(z * Scale) <= 8
  {
    ScaledBound(x);
    ScaledBound(z);
    TruncateBound(x * Scale);
    TruncateBound(z * Scale);
  }

  /** Under a rotation by a unit-circle angle, every corner projects into the frame square. */
  lemma CornerInFrameSquare(c: real, s: real, v: int)
    requires c * c + s * s == 1.0 && 0 <= v < |Vertices|
    ensures InFrameSquare(GridCell(ProjectVertex(Vertices[v], FrameRotation(c, s))))
  {
    VerticesAreCorners();
    ComposedRotation(c, s, c, s, Vertices[v]);
    var r := Transform(Vertices[v], FrameRotation(c, s)).value;
    FrameSquareBound(r.x, r.y, r.z);
  }

  /** Every cell of a line between two cells of the frame square is in the square. */
  lemma LineInFrameSquare(a: Cell, b: Cell, width: int, height: int)
    requires InFrameSquare(a) && InFrameSquare(b)
    ensures forall cell :: cell in Clip(LineCells(a.x, a.y, b.x, b.y), width, height) ==> InFrameSquare(cell) && InBounds(cell, width, height)
  {
    LineShape(a.x, a.y, b.x, b.y);
    ClipMembers(LineCells(a.x, a.y, b.x, b.y), width, height);
  }

  lemma {:induction false} FaceInFrameSquare(ps: seq<Point2D>, k: int, width: int, height: int)
    requires |ps| == 4 && 0 <= k <= 4
    requires forall i :: 0 <= i < 4 ==> InFrameSquare(GridCell(ps[i]))
    ensures forall cell :: cell in FaceCells(ps, k, width, height) ==> InFrameSquare(cell)
  {
    if k > 0 {
      FaceInFrameSquare(ps, k - 1, width, height);
      LineInFrameSquare(GridCell(ps[k - 1]), GridCell(ps[k % 4]), width, height);
    }
  }

  lemma {:induction false} FacesInFrameSquare(c: real, s: real, f: int, width: int, height: int)
    requires c * c + s * s == 1.0 && 0 <= f <= |Faces|
    ensures forall cell :: cell in FacesCells(FrameRotation(c, s), f, width, height) ==> InFrameSquare(cell)
  {
    if f > 0 {
      FacesInFrameSquare(c, s, f - 1, width, height);
      FacesAreValid();
      var ps := ProjectedFace(Faces[f - 1], FrameRotation(c, s));
      forall i | 0 <= i < 4
        ensures InFrameSquare(GridCell(ps[i]))
      {
        CornerInFrameSquare(c, s, Faces[f - 1][i]);
      }
      FaceInFrameSquare(ps, 4, width, height);
    }
  }

  lemma {:induction false} FaceInBounds(ps: seq<Point2D>, k: int, width: int, height: int)
    requires |ps| == 4 && 0 <= k <= 4
    ensures forall cell :: cell in FaceCells(ps, k, width, height) ==> InBounds(cell, width, height)
  {
    if k > 0 {
      FaceInBounds(ps, k - 1, width, height);
      var a, b := GridCell(ps[k - 1]), GridCell(ps[k % 4]);
      ClipMembers(LineCells(a.x, a.y, b.x, b.y), width, height);
    }
  }

  lemma {:induction false} FacesInBounds(m: Matrix4D, f: int, width: int, height: int)
    requires IsAffine(m) && 0 <= f <= |Faces|
    ensures forall cell :: cell in FacesCells(m, f, width, height) ==> InBounds(cell, width, height)
  {
    if f > 0 {
      FacesInBounds(m, f - 1, width, height);
      FacesAreValid();
      FaceInBounds(ProjectedFace(Faces[f - 1], m), 4, width, height);
    }
  }

  /**
    * A frame writes only cells inside the screen, and, when (c, s) is on the unit
    * circle, only cells of the square [Size - 8, Size + 8] in both coordinates.
    */
  lemma FrameBounds(c: real, s: real, width: int, height: int)
    ensures forall cell :: cell in FrameCells(c, s, width, height) ==> InBounds(cell, width, height)
    ensures c * c + s * s == 1.0 ==> forall cell :: cell in FrameCells(c, s, width, height) ==> InFrameSquare(cell)
  {
    FacesInBounds(FrameRotation(c, s), |Faces|, width, height);
    if c * c + s * s == 1.0 {
      FacesInFrameSquare(c, s, |Faces|, width, height);
    }
  }

  /** On the unit circle and a console at least 40 by 40, every cell of a frame is written inside the buffer. */
  lemma FrameCursorInBuffer(c: real, s: real, width: int, height: int)
    requires c * c + s * s == 1.0 && width >= 40 && height >= 40
    ensures forall cell :: cell in FrameCells(c, s, width, height) ==>
              0 <= CursorLeft(cell, width) < width && 0 <= CursorTop(cell, height) < height
  {
    FrameBounds(c, s, width, height);
    forall cell | cell in FrameCells(c, s, width, height)
      ensures 0 <= CursorLeft(cell, width) < width && 0 <= CursorTop(cell, height) < height
    {
      CursorInBuffer(cell, width, height);
    }
  }

  /** Draws one frame for the angle whose cosine is `c` and sine is `s`. */
  method RenderFrame(c: real, s: real, width: int, height: int) returns (written: seq<Cell>)
    ensures written == FrameCells(c, s, width, height)
    ensures forall cell :: cell in written ==> InBounds(cell, width, height)
    ensures c * c + s * s == 1.0 ==> forall cell :: cell in written ==> InFrameSquare(cell)
  {
    var rotation := FrameRotation(c, s);
    FacesAreValid();
    written := [];
    for f := 0 to |Faces|
      invariant written == FacesCells(rotation, f, width, height)
    {
      var projected := ProjectFace(Faces[f], rotation);
      var cells := DrawFace(projected, width, height);
      written := written + cells;
    }
    FrameBounds(c, s, width, height);
  }
}
